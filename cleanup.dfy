/** The ruleset cleanup: for every configured zone, in registry order, list the
    zone's rulesets, keep the zone-level custom-firewall ones, and issue one
    DELETE for each of those whose lower-cased name contains "terraform", "waf"
    or "managed". The HTTP calls are parameters: the listing response of each
    zone and the status each DELETE answers with. */
module Cleanup {
  import opened Common
  import opened Text

  /** An entry of the zone registry: domain name and zone identifier. */
  datatype Zone = Zone(name: string, id: string)

  /** The zone registry, in its defined iteration order. */
  const ZONE_IDS: seq<Zone> := [
    Zone("homieyeng.top", "1791cd65881eb3caf7d1a3cb315342a5"),
    Zone("homieyang.dpdns.org", "42e0fad5233017cf842727c41ce3ef89")
  ]

  /** A remote ruleset; `phase` and `kind` are read with `.get`, so either may be absent. */
  datatype Ruleset = Ruleset(id: string, name: string, phase: Option<string>, kind: Option<string>)

  /** The answer to the GET that lists a zone's rulesets; `result` is absent
      when the JSON body has no "result" key. */
  datatype ListResponse = ListResponse(status: int, result: Option<seq<Ruleset>>)

  /** One DELETE the cleanup issued, with whether `delete_ruleset` reported success. */
  datatype Deletion = Deletion(zoneId: string, rulesetId: string, succeeded: bool)

  const CUSTOM_PHASE := "http_request_firewall_custom"
  const ZONE_KIND := "zone"
  const MANAGED_KEYWORDS := ["terraform", "waf", "managed"]

  /** `get_zone_rulesets`: nothing without a token or on a non-200 answer,
      otherwise the response's "result" list (empty when it is missing). */
  function ZoneRulesets(tokenPresent: bool, response: ListResponse): (rulesets: seq<Ruleset>)
    ensures !tokenPresent || response.status != 200 ==> rulesets == []
    ensures tokenPresent && response.status == 200 && response.result.Some? ==> rulesets == response.result.value
    ensures response.result.None? ==> rulesets == []
  {
    if !tokenPresent then []
    else if response.status != 200 then []
    else response.result.GetOr([])
  }

  /** `rs.get("phase") == "http_request_firewall_custom" and rs.get("kind") == "zone"`. */
  predicate IsCustomZoneRuleset(rs: Ruleset) {
    rs.phase == Some(CUSTOM_PHASE) && rs.kind == Some(ZONE_KIND)
  }

  /** The comprehension that keeps a zone's custom-firewall, zone-level rulesets. */
  function CustomZoneRulesets(rulesets: seq<Ruleset>): (custom: seq<Ruleset>)
    ensures forall rs :: rs in custom <==> rs in rulesets && IsCustomZoneRuleset(rs)
    ensures forall rs :: rs in rulesets && IsCustomZoneRuleset(rs) ==> multiset(custom)[rs] == multiset(rulesets)[rs]
    ensures IsSubsequence(custom, rulesets)
  {
    FilterExactly(rulesets, IsCustomZoneRuleset);
    Filter(rulesets, IsCustomZoneRuleset)
  }

  /** `any(keyword in name.lower() for keyword in ['terraform', 'waf', 'managed'])`. */
  predicate IsManagedName(name: string) {
    exists k :: 0 <= k < |MANAGED_KEYWORDS| && Contains(AsciiLower(name), MANAGED_KEYWORDS[k])
  }

  /** The keyword test on two sample names: "Terraform Managed WAF" is managed
      (its lower-cased form starts with "terraform"), "Custom Rule" is not. */
  lemma ManagedNameExamples()
    ensures IsManagedName("Terraform Managed WAF")
    ensures !IsManagedName("Custom Rule")
  {
    assert StartsAt(AsciiLower("Terraform Managed WAF"), MANAGED_KEYWORDS[0], 0);
    var lower := AsciiLower("Custom Rule");
    assert lower == "custom rule";
    forall k, i: nat | 0 <= k < |MANAGED_KEYWORDS| && i <= |lower| - |MANAGED_KEYWORDS[k]|
      ensures !StartsAt(lower, MANAGED_KEYWORDS[k], i)
    {
      assert lower[i] != MANAGED_KEYWORDS[k][0];
    }
  }

  /** The keyword test ignores case: a name passes it iff its lower-cased form does. */
  lemma ManagedNameIgnoresCase(name: string)
    ensures IsManagedName(name) <==> IsManagedName(AsciiLower(name))
  {
    AsciiLowerIdempotent(name);
  }

  /** The keyword test is a substring test: text added around a managed name
      leaves it managed. */
  lemma ManagedNameWithin(p: string, name: string, q: string)
    requires IsManagedName(name)
    ensures IsManagedName(p + name + q)
  {
    var k :| 0 <= k < |MANAGED_KEYWORDS| && Contains(AsciiLower(name), MANAGED_KEYWORDS[k]);
    AsciiLowerConcat(p, name);
    AsciiLowerConcat(p + name, q);
    ContainsWithin(AsciiLower(p), AsciiLower(name), AsciiLower(q), MANAGED_KEYWORDS[k]);
  }

  /** A ruleset the cleanup deletes. */
  predicate IsDeletionTarget(rs: Ruleset) {
    IsCustomZoneRuleset(rs) && IsManagedName(rs.name)
  }

  /** `delete_ruleset`'s verdict on the DELETE's status code. */
  function DeleteSucceeded(status: int): (ok: bool)
    ensures ok <==> status == 200 || status == 204
  {
    status in [200, 204]
  }

  /** The DELETEs issued while walking one zone's custom rulesets in list order. */
  function ZoneDeletions(zoneId: string, custom: seq<Ruleset>, deleteStatus: (string, string) -> int): seq<Deletion>
    decreases |custom|
  {
    if custom == [] then []
    else
      var last := custom[|custom| - 1];
      ZoneDeletions(zoneId, custom[..|custom| - 1], deleteStatus)
        + (if IsManagedName(last.name)
           then [Deletion(zoneId, last.id, DeleteSucceeded(deleteStatus(zoneId, last.id)))]
           else [])
  }

  /** The DELETEs issued for a zone, given how its listing request was answered. */
  function DeletionsForZone(zone: Zone, listing: string -> ListResponse, deleteStatus: (string, string) -> int): seq<Deletion> {
    ZoneDeletions(zone.id, CustomZoneRulesets(ZoneRulesets(true, listing(zone.id))), deleteStatus)
  }

  /** The DELETEs issued for the zones, zone after zone. */
  function AllDeletions(zones: seq<Zone>, listing: string -> ListResponse, deleteStatus: (string, string) -> int): seq<Deletion>
    decreases |zones|
  {
    if zones == [] then []
    else AllDeletions(zones[..|zones| - 1], listing, deleteStatus) + DeletionsForZone(zones[|zones| - 1], listing, deleteStatus)
  }

  /** Walking one more zone appends that zone's deletions. */
  lemma AllDeletionsSnoc(zones: seq<Zone>, z: nat, listing: string -> ListResponse,
                         deleteStatus: (string, string) -> int)
    requires z < |zones|
    ensures AllDeletions(zones[..z + 1], listing, deleteStatus)
         == AllDeletions(zones[..z], listing, deleteStatus) + DeletionsForZone(zones[z], listing, deleteStatus)
  {
    assert zones[..z + 1][..z] == zones[..z];
  }

  /** Everything `cleanup_existing_rulesets` deletes: nothing without a token. */
  function PlannedDeletions(tokenPresent: bool, zones: seq<Zone>, listing: string -> ListResponse,
                            deleteStatus: (string, string) -> int): seq<Deletion>
  {
    if !tokenPresent then [] else AllDeletions(zones, listing, deleteStatus)
  }

  /** `cleanup_existing_rulesets`, recording each DELETE in the order it is
      issued, over the zones of the registry. `listing(zoneId)` is the answer to the zone's listing GET and
      `deleteStatus(zoneId, rulesetId)` the status code the DELETE answers with. */
  method CleanupExistingRulesets(tokenPresent: bool, listing: string -> ListResponse,
                                 deleteStatus: (string, string) -> int)
    returns (log: seq<Deletion>)
    ensures log == PlannedDeletions(tokenPresent, ZONE_IDS, listing, deleteStatus)
  {
    log := [];
    if !tokenPresent {
      return;
    }
    var zones := ZONE_IDS;
    for z := 0 to |zones|
      invariant log == AllDeletions(zones[..z], listing, deleteStatus)
    {
      var zone := zones[z];
      AllDeletionsSnoc(zones, z, listing, deleteStatus);
      var rulesets := ZoneRulesets(tokenPresent, listing(zone.id));
      var custom := CustomZoneRulesets(rulesets);
      if |custom| == 0 {
        assert DeletionsForZone(zone, listing, deleteStatus) == [];
        continue;
      }
      var issued := DeleteManagedRulesets(zone.id, custom, deleteStatus);
      log := log + issued;
    }
    assert zones[..|zones|] == zones;
  }

  /** The inner loop of `cleanup_existing_rulesets` over one zone's custom
      rulesets: a DELETE for each managed name, in list order, others skipped. */
  method DeleteManagedRulesets(zoneId: string, custom: seq<Ruleset>, deleteStatus: (string, string) -> int)
    returns (issued: seq<Deletion>)
    ensures issued == ZoneDeletions(zoneId, custom, deleteStatus)
  {
    issued := [];
    for j := 0 to |custom|
      invariant issued == ZoneDeletions(zoneId, custom[..j], deleteStatus)
    {
      var ruleset := custom[j];
      assert custom[..j + 1][..j] == custom[..j];
      if IsManagedName(ruleset.name) {
        var ok := DeleteSucceeded(deleteStatus(zoneId, ruleset.id));
        issued := issued + [Deletion(zoneId, ruleset.id, ok)];
      }
    }
    assert custom[..|custom|] == custom;
  }

  /** A deletion is issued for a zone's custom ruleset exactly when its name is managed. */
  lemma {:induction false} ZoneDeletionsExactly(zoneId: string, custom: seq<Ruleset>,
                                                deleteStatus: (string, string) -> int, d: Deletion)
    ensures d in ZoneDeletions(zoneId, custom, deleteStatus) <==>
              exists rs :: rs in custom && IsManagedName(rs.name)
                           && d == Deletion(zoneId, rs.id, DeleteSucceeded(deleteStatus(zoneId, rs.id)))
    decreases |custom|
  {
    if custom != [] {
      var init := custom[..|custom| - 1];
      var last := custom[|custom| - 1];
      assert custom == init + [last];
      ZoneDeletionsExactly(zoneId, init, deleteStatus, d);
      assert forall rs :: rs in custom <==> rs in init || rs == last;
    }
  }

  /** `d` is the deletion issued for ruleset `rs` of `zone`: `rs` was in the
      zone's successful listing, is in the custom-firewall phase, of kind "zone",
      has a managed name, and `d` records its zone, its identifier and the
      DELETE's status verdict. */
  ghost predicate IssuedFor(zone: Zone, rs: Ruleset, d: Deletion, listing: string -> ListResponse,
                      deleteStatus: (string, string) -> int)
  {
    && rs in ZoneRulesets(true, listing(zone.id))
    && IsDeletionTarget(rs)
    && d == Deletion(zone.id, rs.id, DeleteSucceeded(deleteStatus(zone.id, rs.id)))
  }

  /** `d` is the deletion issued for some ruleset of `zone`. */
  ghost predicate IssuedInZone(zone: Zone, d: Deletion, listing: string -> ListResponse,
                         deleteStatus: (string, string) -> int)
  {
    exists rs :: IssuedFor(zone, rs, d, listing, deleteStatus)
  }

  lemma ZoneIssuesExactly(zone: Zone, listing: string -> ListResponse, deleteStatus: (string, string) -> int, d: Deletion)
    ensures d in DeletionsForZone(zone, listing, deleteStatus) <==> IssuedInZone(zone, d, listing, deleteStatus)
  {
    var rulesets := ZoneRulesets(true, listing(zone.id));
    var custom := CustomZoneRulesets(rulesets);
    ZoneDeletionsExactly(zone.id, custom, deleteStatus, d);
    if d in DeletionsForZone(zone, listing, deleteStatus) {
      var rs :| rs in custom && IsManagedName(rs.name)
                && d == Deletion(zone.id, rs.id, DeleteSucceeded(deleteStatus(zone.id, rs.id)));
      assert IssuedFor(zone, rs, d, listing, deleteStatus);
    }
    if IssuedInZone(zone, d, listing, deleteStatus) {
      var rs :| IssuedFor(zone, rs, d, listing, deleteStatus);
      assert rs in custom;
    }
  }

  /** Cleanup deletes exactly the targeted rulesets: a deletion is issued iff a
      token is present and it is the deletion issued for some ruleset of some
      configured zone (see IssuedFor). */
  lemma {:induction false} CleanupDeletesExactlyTargets(tokenPresent: bool, zones: seq<Zone>,
                                                        listing: string -> ListResponse,
                                                        deleteStatus: (string, string) -> int, d: Deletion)
    ensures d in PlannedDeletions(tokenPresent, zones, listing, deleteStatus) <==>
              (tokenPresent && exists i :: 0 <= i < |zones| && IssuedInZone(zones[i], d, listing, deleteStatus))
  {
    if tokenPresent {
      AllDeletionsExactly(zones, listing, deleteStatus, d);
      forall i | 0 <= i < |zones|
        ensures d in DeletionsForZone(zones[i], listing, deleteStatus) <==> IssuedInZone(zones[i], d, listing, deleteStatus)
      {
        ZoneIssuesExactly(zones[i], listing, deleteStatus, d);
      }
    }
  }

  /** The log of each zone, zone by zone. */
  function ZoneLogs(zones: seq<Zone>, listing: string -> ListResponse, deleteStatus: (string, string) -> int)
    : (logs: seq<seq<Deletion>>)
    ensures |logs| == |zones|
    ensures forall i :: 0 <= i < |zones| ==> logs[i] == DeletionsForZone(zones[i], listing, deleteStatus)
  {
    seq(|zones|, i requires 0 <= i < |zones| => DeletionsForZone(zones[i], listing, deleteStatus))
  }

  /** The log of all zones is the zones' logs one after the other. */
  lemma {:induction false} AllDeletionsFlatten(zones: seq<Zone>, listing: string -> ListResponse,
                                               deleteStatus: (string, string) -> int)
    ensures AllDeletions(zones, listing, deleteStatus) == Flatten(ZoneLogs(zones, listing, deleteStatus))
    decreases |zones|
  {
    if zones != [] {
      var n := |zones| - 1;
      var init := zones[..n];
      AllDeletionsFlatten(init, listing, deleteStatus);
      assert ZoneLogs(zones, listing, deleteStatus)[..n] == ZoneLogs(init, listing, deleteStatus);
    }
  }

  /** A deletion is in the log of all zones iff it is in the log of one of them. */
  lemma {:induction false} AllDeletionsExactly(zones: seq<Zone>, listing: string -> ListResponse,
                                               deleteStatus: (string, string) -> int, d: Deletion)
    ensures d in AllDeletions(zones, listing, deleteStatus) <==>
              exists i :: 0 <= i < |zones| && d in DeletionsForZone(zones[i], listing, deleteStatus)
  {
    AllDeletionsFlatten(zones, listing, deleteStatus);
    FlattenMembership(ZoneLogs(zones, listing, deleteStatus), d);
  }

  /** The (zone, ruleset) pairs of a deletion log, without the success flags. */
  function Requests(log: seq<Deletion>): seq<(string, string)> {
    seq(|log|, k requires 0 <= k < |log| => (log[k].zoneId, log[k].rulesetId))
  }

  lemma RequestsConcat(a: seq<Deletion>, b: seq<Deletion>)
    ensures Requests(a + b) == Requests(a) + Requests(b)
  {
  }

  /** The (zone, ruleset) pair of each ruleset of a zone, in list order. */
  function Ids(zoneId: string, rulesets: seq<Ruleset>): (ids: seq<(string, string)>)
    ensures |ids| == |rulesets|
    ensures forall k :: 0 <= k < |rulesets| ==> ids[k] == (zoneId, rulesets[k].id)
  {
    seq(|rulesets|, k requires 0 <= k < |rulesets| => (zoneId, rulesets[k].id))
  }

  lemma IdsConcat(zoneId: string, a: seq<Ruleset>, b: seq<Ruleset>)
    ensures Ids(zoneId, a + b) == Ids(zoneId, a) + Ids(zoneId, b)
  {
  }

  predicate HasManagedName(rs: Ruleset) {
    IsManagedName(rs.name)
  }

  /** The rulesets of a zone the cleanup deletes, in the order of the zone's
      listing: each deletion target of the listing, as often as it is listed. */
  function ZoneTargets(zone: Zone, listing: string -> ListResponse): (targets: seq<Ruleset>)
    ensures forall rs :: rs in targets <==> rs in ZoneRulesets(true, listing(zone.id)) && IsDeletionTarget(rs)
    ensures forall rs :: rs in targets ==>
              multiset(targets)[rs] == multiset(ZoneRulesets(true, listing(zone.id)))[rs]
    ensures IsSubsequence(Filter(ZoneRulesets(true, listing(zone.id)), IsCustomZoneRuleset), ZoneRulesets(true, listing(zone.id)))
    ensures IsSubsequence(targets, Filter(ZoneRulesets(true, listing(zone.id)), IsCustomZoneRuleset))
  {
    var custom := CustomZoneRulesets(ZoneRulesets(true, listing(zone.id)));
    FilterExactly(custom, HasManagedName);
    Filter(custom, HasManagedName)
  }

  /** The deletions of one zone's walk are issued for its managed custom
      rulesets, one each, in list order. */
  lemma {:induction false} ZoneRequestsInListOrder(zoneId: string, custom: seq<Ruleset>,
                                                   deleteStatus: (string, string) -> int)
    ensures Requests(ZoneDeletions(zoneId, custom, deleteStatus)) == Ids(zoneId, Filter(custom, HasManagedName))
    decreases |custom|
  {
    if custom != [] {
      var init := custom[..|custom| - 1];
      var last := custom[|custom| - 1];
      assert custom == init + [last];
      ZoneRequestsInListOrder(zoneId, init, deleteStatus);
      var tail := if IsManagedName(last.name)
                  then [Deletion(zoneId, last.id, DeleteSucceeded(deleteStatus(zoneId, last.id)))]
                  else [];
      RequestsConcat(ZoneDeletions(zoneId, init, deleteStatus), tail);
      FilterConcat(init, [last], HasManagedName);
      assert [last][1..] == [];
      IdsConcat(zoneId, Filter(init, HasManagedName), Filter([last], HasManagedName));
    }
  }

  /** The targets of each zone, as (zone, ruleset) pairs, zone by zone. */
  function TargetIds(zones: seq<Zone>, listing: string -> ListResponse): (ids: seq<seq<(string, string)>>)
    ensures |ids| == |zones|
    ensures forall i :: 0 <= i < |zones| ==> ids[i] == Ids(zones[i].id, ZoneTargets(zones[i], listing))
  {
    seq(|zones|, i requires 0 <= i < |zones| => Ids(zones[i].id, ZoneTargets(zones[i], listing)))
  }

  /** The DELETEs go out zone by zone in the given order and, within a zone,
      one per target in list order; none at all without a token. */
  lemma {:induction false} CleanupRequestsInOrder(tokenPresent: bool, zones: seq<Zone>,
                                                  listing: string -> ListResponse,
                                                  deleteStatus: (string, string) -> int)
    ensures Requests(PlannedDeletions(tokenPresent, zones, listing, deleteStatus))
         == if tokenPresent then Flatten(TargetIds(zones, listing)) else []
  {
    if tokenPresent {
      AllRequestsInOrder(zones, listing, deleteStatus);
    }
  }

  lemma {:induction false} AllRequestsInOrder(zones: seq<Zone>, listing: string -> ListResponse,
                                              deleteStatus: (string, string) -> int)
    ensures Requests(AllDeletions(zones, listing, deleteStatus)) == Flatten(TargetIds(zones, listing))
    decreases |zones|
  {
    if zones != [] {
      var n := |zones| - 1;
      var init := zones[..n];
      var zone := zones[n];
      AllRequestsInOrder(init, listing, deleteStatus);
      var custom := CustomZoneRulesets(ZoneRulesets(true, listing(zone.id)));
      ZoneRequestsInListOrder(zone.id, custom, deleteStatus);
      RequestsConcat(AllDeletions(init, listing, deleteStatus), DeletionsForZone(zone, listing, deleteStatus));
      assert TargetIds(zones, listing)[..n] == TargetIds(init, listing);
    }
  }

  /** The keyword test at the level of the cleanup: a zone listing a managed
      custom ruleset "Terraform Managed WAF" and an unmanaged one "Custom Rule"
      gets exactly one DELETE, for the first. */
  lemma ManagedNameExamplesInZone(zone: Zone, listing: string -> ListResponse, deleteStatus: (string, string) -> int)
    requires listing(zone.id) == ListResponse(200, Some([
               Ruleset("r1", "Terraform Managed WAF", Some(CUSTOM_PHASE), Some(ZONE_KIND)),
               Ruleset("r2", "Custom Rule", Some(CUSTOM_PHASE), Some(ZONE_KIND))]))
    ensures PlannedDeletions(true, [zone], listing, deleteStatus)
         == [Deletion(zone.id, "r1", DeleteSucceeded(deleteStatus(zone.id, "r1")))]
  {
    var managed := Ruleset("r1", "Terraform Managed WAF", Some(CUSTOM_PHASE), Some(ZONE_KIND));
    var other := Ruleset("r2", "Custom Rule", Some(CUSTOM_PHASE), Some(ZONE_KIND));
    var first := Deletion(zone.id, "r1", DeleteSucceeded(deleteStatus(zone.id, "r1")));
    ManagedNameExamples();
    assert ZoneRulesets(true, listing(zone.id)) == [managed, other];
    FilterKeepsAll([managed, other], IsCustomZoneRuleset);
    assert CustomZoneRulesets([managed, other]) == [managed, other];
    assert [managed, other][..1] == [managed];
    assert [managed][..0] == [];
    assert ZoneDeletions(zone.id, [managed], deleteStatus) == [first];
    assert ZoneDeletions(zone.id, [managed, other], deleteStatus) == [first];
    assert DeletionsForZone(zone, listing, deleteStatus) == [first];
    assert [zone][..0] == [];
    assert AllDeletions([zone], listing, deleteStatus) == [] + [first];
  }

  lemma {:induction false} ZoneRequestsIgnoreOutcomes(zoneId: string, custom: seq<Ruleset>,
                                                      status1: (string, string) -> int,
                                                      status2: (string, string) -> int)
    ensures Requests(ZoneDeletions(zoneId, custom, status1)) == Requests(ZoneDeletions(zoneId, custom, status2))
    decreases |custom|
  {
    if custom != [] {
      var init := custom[..|custom| - 1];
      var last := custom[|custom| - 1];
      ZoneRequestsIgnoreOutcomes(zoneId, init, status1, status2);
      var tail1 := if IsManagedName(last.name) then [Deletion(zoneId, last.id, DeleteSucceeded(status1(zoneId, last.id)))] else [];
      var tail2 := if IsManagedName(last.name) then [Deletion(zoneId, last.id, DeleteSucceeded(status2(zoneId, last.id)))] else [];
      RequestsConcat(ZoneDeletions(zoneId, init, status1), tail1);
      RequestsConcat(ZoneDeletions(zoneId, init, status2), tail2);
    }
  }

  /** A failed DELETE does not stop the cleanup: whatever the DELETEs answer,
      the same rulesets are deleted in the same order. */
  lemma {:induction false} FailedDeletesDoNotStopCleanup(tokenPresent: bool, zones: seq<Zone>,
                                                         listing: string -> ListResponse,
                                                         status1: (string, string) -> int,
                                                         status2: (string, string) -> int)
    ensures Requests(PlannedDeletions(tokenPresent, zones, listing, status1))
         == Requests(PlannedDeletions(tokenPresent, zones, listing, status2))
  {
    if tokenPresent {
      AllRequestsIgnoreOutcomes(zones, listing, status1, status2);
    }
  }

  lemma {:induction false} AllRequestsIgnoreOutcomes(zones: seq<Zone>, listing: string -> ListResponse,
                                                     status1: (string, string) -> int,
                                                     status2: (string, string) -> int)
    ensures Requests(AllDeletions(zones, listing, status1)) == Requests(AllDeletions(zones, listing, status2))
    decreases |zones|
  {
    if zones != [] {
      var init := zones[..|zones| - 1];
      var zone := zones[|zones| - 1];
      AllRequestsIgnoreOutcomes(init, listing, status1, status2);
      var custom := CustomZoneRulesets(ZoneRulesets(true, listing(zone.id)));
      ZoneRequestsIgnoreOutcomes(zone.id, custom, status1, status2);
      RequestsConcat(AllDeletions(init, listing, status1), DeletionsForZone(zone, listing, status1));
      RequestsConcat(AllDeletions(init, listing, status2), DeletionsForZone(zone, listing, status2));
    }
  }
}
