/** getStationInfo: the fixed table of supported stations. */
module Stations {
  import opened Outcomes

  /** What getStationInfo returns: the code, the city, and the station's time zone (an opaque tz name). */
  datatype StationInfo = StationInfo(code: string, location: string, timezone: string)

  const Central := "US/Central"

  /** The supported stations, in the order getStationInfo tests them. */
  const Supported: seq<StationInfo> := [
    StationInfo("CHI", "Chicago, IL", Central),
    StationInfo("CHM", "Champaign, IL", Central),
    StationInfo("RTL", "Rantoul, IL", Central)
  ]

  /** A station is named by its code or its location, exactly as written. */
  predicate Names(key: string, s: StationInfo) {
    key == s.code || key == s.location
  }

  /** Resolves a station by its code or its location; any other string raises NotImplementedError. */
  function GetStationInfo(codeOrLoc: string): (r: Result<StationInfo>)
    ensures r.Success? ==> r.value in Supported && Names(codeOrLoc, r.value)
    ensures r.Failure? ==> r.error == StationNotSupported
    ensures r.Failure? <==> forall s :: s in Supported ==> !Names(codeOrLoc, s)
  {
    if codeOrLoc == "CHI" || codeOrLoc == "Chicago, IL" then
      Success(StationInfo("CHI", "Chicago, IL", Central))
    else if codeOrLoc == "CHM" || codeOrLoc == "Champaign, IL" then
      Success(StationInfo("CHM", "Champaign, IL", Central))
    else if codeOrLoc == "RTL" || codeOrLoc == "Rantoul, IL" then
      Success(StationInfo("RTL", "Rantoul, IL", Central))
    else
      Failure(StationNotSupported)
  }

  /** No two supported stations share a code or a location. */
  lemma KeysIdentifyOneStation(key: string, s: StationInfo, t: StationInfo)
    requires s in Supported && t in Supported
    requires Names(key, s) && Names(key, t)
    ensures s == t
  {
  }

  /** Resolving the code or the location of a resolved station gives the same triple again. */
  lemma ResolutionIsIdempotent(codeOrLoc: string)
    requires GetStationInfo(codeOrLoc).Success?
    ensures var s := GetStationInfo(codeOrLoc).value;
      GetStationInfo(s.code) == GetStationInfo(s.location) == Success(s)
  {
  }

  /** Matching is exact: no case folding and no trimming. */
  lemma MatchingIsExact()
    ensures GetStationInfo("chi").Failure?
    ensures GetStationInfo("Chicago,IL").Failure?
    ensures GetStationInfo(" CHI").Failure?
    ensures GetStationInfo("chicago, il").Failure?
  {
  }
}
