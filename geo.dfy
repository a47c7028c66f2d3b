/** The ASN/location lookups: the operator's own ASN (fetched once per
    session) and the per-hop lookup with its local-network short-circuit and
    its two-provider fallback. Each provider's HTTP call and JSON decoding is
    an input: either unavailable (it threw, or decoded to null) or the decoded
    fields, any of which may be null. */
module Geo {
  import opened Common
  import opened Net

  /** A reply of ip-api.com. */
  datatype IpApiReply =
    | IpApiUnavailable
    | IpApiReply(status: Option<string>, asn: Option<string>, city: Option<string>, country: Option<string>)

  /** A reply of ipinfo.io. */
  datatype IpInfoReply =
    | IpInfoUnavailable
    | IpInfoReply(org: Option<string>, city: Option<string>, country: Option<string>)

  const UserAsnUnknown: string := "ASN do Usuário (Falha na busca)"
  const LocalNetwork: string := "Rede Local"
  const LookupFailed: string := "Falha na Busca"
  const NoLocation: string := "N/A"

  /** ip-api.com answered with status "success" and a non-blank ASN. */
  predicate IpApiUsable(r: IpApiReply) {
    r.IpApiReply? && r.status == Some("success") && !IsNullOrWhiteSpace(r.asn)
  }

  /** ipinfo.io answered with a non-blank organisation. */
  predicate IpInfoUsable(r: IpInfoReply) {
    r.IpInfoReply? && !IsNullOrWhiteSpace(r.org)
  }

  /** The location text: "city, country", the city and its comma omitted when
      the city is blank. */
  function LocationText(city: Option<string>, country: Option<string>): (s: string)
    ensures IsNullOrWhiteSpace(city) ==> s == OrEmpty(country)
    ensures !IsNullOrWhiteSpace(city) ==> s == city.value + ", " + OrEmpty(country)
  {
    (if IsNullOrWhiteSpace(city) then "" else city.value + ", ") + OrEmpty(country)
  }

  /** A location splits at its comma into the city and the country (after
      the space), and is the country alone when the city is blank, as long as
      neither name holds a comma. */
  lemma LocationReadsBack(city: Option<string>, country: Option<string>)
    requires forall i :: 0 <= i < |OrEmpty(city)| ==> OrEmpty(city)[i] != ','
    requires forall i :: 0 <= i < |OrEmpty(country)| ==> OrEmpty(country)[i] != ','
    ensures IsNullOrWhiteSpace(city) ==> Split(LocationText(city, country), ',') == [OrEmpty(country)]
    ensures !IsNullOrWhiteSpace(city) ==>
              Split(LocationText(city, country), ',') == [city.value, " " + OrEmpty(country)]
  {
    SplitWithout(OrEmpty(country), ',');
    if !IsNullOrWhiteSpace(city) {
      assert OrEmpty(city) == city.value;
      CommaPieces(city.value, OrEmpty(country));
    }
  }

  /** Two comma-free names joined by ", " split back into the first name and
      the space-led second. */
  lemma CommaPieces(x: string, y: string)
    requires forall i :: 0 <= i < |x| ==> x[i] != ','
    requires forall i :: 0 <= i < |y| ==> y[i] != ','
    ensures Split(x + ", " + y, ',') == [x, " " + y]
  {
    var tail := " " + y;
    assert Split(tail, ',') == [tail] by {
      assert forall i :: 1 <= i < |tail| ==> tail[i] == y[i - 1];
      SplitWithout(tail, ',');
    }
    assert Split(x, ',') == [x] by {
      SplitWithout(x, ',');
    }
    assert x + ", " + y == x + [','] + tail;
    SplitJoin(x, tail, ',');
  }

  /** FetchUserPublicInfoAsync: ip-api.com, then ipinfo.io, then a literal. */
  function UserAsn(primary: IpApiReply, secondary: IpInfoReply): string {
    if IpApiUsable(primary) then primary.asn.value
    else if IpInfoUsable(secondary) then secondary.org.value
    else UserAsnUnknown
  }

  /** Whatever the providers answer, the operator's ASN text is never blank. */
  lemma UserAsnNeverBlank(primary: IpApiReply, secondary: IpInfoReply)
    ensures !IsNullOrWhiteSpace(Some(UserAsn(primary, secondary)))
    ensures IpApiUsable(primary) ==> UserAsn(primary, secondary) == primary.asn.value
    ensures !IpApiUsable(primary) && IpInfoUsable(secondary) ==> UserAsn(primary, secondary) == secondary.org.value
    ensures !IpApiUsable(primary) && !IpInfoUsable(secondary) ==> UserAsn(primary, secondary) == UserAsnUnknown
  {
    if !IpApiUsable(primary) && !IpInfoUsable(secondary) {
      assert !IsWhiteSpace(UserAsnUnknown[0]);
    }
  }

  /** What a hop's ASN and location fields hold after its lookup. */
  datatype GeoInfo = GeoInfo(asn: string, location: string)

  /** GetIpInfoAsync: a hop without an address, or whose class is not public,
      gets the operator's ASN and the local-network marker; otherwise the first
      usable provider's answer, else the failure markers. */
  function HopGeo(hasAddress: bool, kind: NetworkType, userAsn: string,
                  primary: IpApiReply, secondary: IpInfoReply): GeoInfo
  {
    if !hasAddress || kind != Public then GeoInfo(userAsn, LocalNetwork)
    else if IpApiUsable(primary) then GeoInfo(primary.asn.value, LocationText(primary.city, primary.country))
    else if IpInfoUsable(secondary) then GeoInfo(secondary.org.value, LocationText(secondary.city, secondary.country))
    else GeoInfo(LookupFailed, NoLocation)
  }

  /** A local hop never depends on what either provider would answer: no
      lookup is made for it. A public hop's answer comes from ip-api.com when
      that one is usable, whatever ipinfo.io says, and its ASN is then never
      blank; with both unusable the failure markers are stored. */
  lemma HopGeoFallback(hasAddress: bool, kind: NetworkType, userAsn: string,
                       primary: IpApiReply, secondary: IpInfoReply,
                       primary': IpApiReply, secondary': IpInfoReply)
    ensures !hasAddress || kind != Public ==>
              HopGeo(hasAddress, kind, userAsn, primary, secondary) == GeoInfo(userAsn, LocalNetwork)
              && HopGeo(hasAddress, kind, userAsn, primary', secondary') == GeoInfo(userAsn, LocalNetwork)
    ensures hasAddress && kind == Public && IpApiUsable(primary) ==>
              HopGeo(hasAddress, kind, userAsn, primary, secondary) == HopGeo(hasAddress, kind, userAsn, primary, secondary')
              == GeoInfo(primary.asn.value, LocationText(primary.city, primary.country))
    ensures hasAddress && kind == Public && !IpApiUsable(primary) && IpInfoUsable(secondary) ==>
              HopGeo(hasAddress, kind, userAsn, primary, secondary)
                == GeoInfo(secondary.org.value, LocationText(secondary.city, secondary.country))
    ensures hasAddress && kind == Public ==>
              !IsNullOrWhiteSpace(Some(HopGeo(hasAddress, kind, userAsn, primary, secondary).asn))
    ensures hasAddress && kind == Public && !IpApiUsable(primary) && !IpInfoUsable(secondary) ==>
              HopGeo(hasAddress, kind, userAsn, primary, secondary) == GeoInfo(LookupFailed, NoLocation)
  {
    if hasAddress && kind == Public && !IpApiUsable(primary) && !IpInfoUsable(secondary) {
      assert !IsWhiteSpace(LookupFailed[0]);
    }
  }
}
