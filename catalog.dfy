/** The curated static list of known-bad Autonomous System Numbers and the
    truncation every fetch path applies to it. */
module Catalog {
  import opened Common

  /** Upper bound on the number of ASNs put into the blocking rule. */
  const MAX_ASNS: nat := 50

  /** The hand-curated catalog, in authored order. It holds 32 positive numbers,
      no two alike, which is why the script may report its length as the number
      of unique ASNs. */
  function KnownBadAsns(): (asns: seq<nat>)
    ensures |asns| == 32
    ensures forall i :: 0 <= i < |asns| ==> asns[i] > 0
    ensures forall i, j :: 0 <= i < j < |asns| ==> asns[i] != asns[j]
  {
    var asns :=
    [ // Russia-related high-risk networks
      197695, 49505, 201776, 202425, 49392, 44812, 202422,
      // European high-risk hosting
      49981, 60068, 44901, 51167, 200000,
      // other known problem networks
      208091, 202448, 63949, 16276, 24940,
      // mainland China
      45090, 37963,
      // United States
      20473, 14061,
      // other countries
      9009, 35913,
      // recently added high-risk networks
      31034, 8100, 46844,
      // VPN and proxy providers
      40676, 53667,
      // recently discovered
      209605, 212238,
      // cryptocurrency mining
      29802,
      // botnet-related
      48693 ];
    assert forall i :: 0 <= i < |asns| ==> CatalogIndex(asns[i]) == i;
    asns
  }

  /** Proof helper: the index at which each catalog entry is authored (-1 for
      any other number). Since it sends every entry back to its own index, no
      number can stand at two indices. */
  ghost function CatalogIndex(asn: nat): int {
    if asn == 197695 then 0
    else if asn == 49505 then 1
    else if asn == 201776 then 2
    else if asn == 202425 then 3
    else if asn == 49392 then 4
    else if asn == 44812 then 5
    else if asn == 202422 then 6
    else if asn == 49981 then 7
    else if asn == 60068 then 8
    else if asn == 44901 then 9
    else if asn == 51167 then 10
    else if asn == 200000 then 11
    else if asn == 208091 then 12
    else if asn == 202448 then 13
    else if asn == 63949 then 14
    else if asn == 16276 then 15
    else if asn == 24940 then 16
    else if asn == 45090 then 17
    else if asn == 37963 then 18
    else if asn == 20473 then 19
    else if asn == 14061 then 20
    else if asn == 9009 then 21
    else if asn == 35913 then 22
    else if asn == 31034 then 23
    else if asn == 8100 then 24
    else if asn == 46844 then 25
    else if asn == 40676 then 26
    else if asn == 53667 then 27
    else if asn == 209605 then 28
    else if asn == 212238 then 29
    else if asn == 29802 then 30
    else if asn == 48693 then 31
    else -1
  }

  /** `get_known_bad_asns()[:MAX_ASNS]`, the value every fetch path returns.
      With 32 entries and a bound of 50 the slice is the whole catalog. */
  function FallbackAsns(): (asns: seq<nat>)
    ensures |asns| <= MAX_ASNS
    ensures asns <= KnownBadAsns()
    ensures asns == KnownBadAsns()
  {
    Take(KnownBadAsns(), MAX_ASNS)
  }
}
