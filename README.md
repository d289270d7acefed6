# ASN blocklist updater: a Dafny model of its decision logic

The script keeps a firewall rules file in step with a list of known-bad
Autonomous System Numbers (ASNs). It also clears out stale managed firewall
rulesets through the cloud provider's API. Almost all of it is HTTP, YAML and
printing. This project models the decision logic inside it and proves what that
logic promises:

- **Static threat catalog** (`Catalog`): the curated list of 32 ASNs, and its
  cut to `MAX_ASNS = 50`.
- **Intelligence fetcher** (`Fetcher`, `CountryStats`): the branch cascade of
  the AbuseIPDB fetch, with the HTTP call replaced by an abstract outcome. Every
  branch returns the same value: the catalog cut to 50, which is the whole
  catalog. A successful response with data only feeds a diagnostic country table
  (a count per `countryCode`, the ten most frequent countries, and a high-risk
  check on the first five). That table is modelled and its properties proved.
- **Rules-list update** (`RulesUpdate`): drop every rule whose name contains
  `"ASN"`, then append one blocking rule when the ASN list is non-empty. The
  rule's expression is `(ip.geoip.asnum in {a1 a2 ... an})`. The document is a
  class whose `rules` list the update reassigns and appends to. The proofs show
  that at most one ASN rule remains, that other rules are untouched, and that the
  update is idempotent. The expression is paired with a parser and a round-trip
  proof.
- **Ruleset cleanup** (`Cleanup`): for each configured zone, in registry order,
  the listing of the zone's rulesets, the filter on phase and kind, and the
  managed-name keyword test. The nested loop that issues the DELETEs accumulates
  a deletion log. The list GET and the DELETE statuses are parameters.

Shared pieces live in `Common` and `Text`. `Common` has `Option`, Python's
slice `s[:n]` and a generic list-comprehension filter. `Text` has substring
search, ASCII lower-casing, `str(n)`, and `' '.join` with its inverse `split(' ')`.

## Model

| member | source | states |
|---|---|---|
| `Catalog.KnownBadAsns` | update_abuseipdb_asns.py:16-75 | the catalog is a fixed sequence of 32 positive ASNs, no two alike (the script reports its length as the number of unique ASNs) |
| `Catalog.FallbackAsns` | update_abuseipdb_asns.py:82-84 | `get_known_bad_asns()[:MAX_ASNS]` has at most 50 entries, is a prefix of the catalog, and with 32 entries is the whole catalog |
| `Fetcher.FetchAbuseIpdbAsns` | update_abuseipdb_asns.py:77-156 | for every outcome the result is the catalog cut to 50. These outcomes are: no key, 200 with data, 200 with empty or missing data, 200 with a body that is not JSON, 429, 401, any other status, network exception, other exception. The report names the branch taken, each branch under exactly its own condition; only the 200-with-data branch computes the country table, and it reports the number of entries, the top countries and the high-risk flag |
| `CountryStats.CountCountries` | update_abuseipdb_asns.py:106-109 | the counting loop yields one key per distinct country in order of first appearance, each key mapped to the number of entries with that country; a missing `countryCode` counts as "Unknown" |
| `CountryStats.CountsSumToEntries` | update_abuseipdb_asns.py:106-109 | the counts of the table sum to the number of entries |
| `CountryStats.SortByCountDesc` | update_abuseipdb_asns.py:112 | the sorted items are in non-increasing count order and are a permutation of the table |
| `CountryStats.TopCountries` | update_abuseipdb_asns.py:112 | the displayed list has min(10, number of countries) items, in non-increasing count order, all taken from the table, and no country left out has a higher count than any country shown |
| `CountryStats.HighRiskDetected` | update_abuseipdb_asns.py:121-122 | the high-risk flag is set iff one of RU, CN, KP, IR is among the first five displayed countries |
| `Text.Decimal` | update_abuseipdb_asns.py:170 | `str(n)` of an ASN is a non-empty digit string whose decimal value is `n`; it is "0" for zero and has no leading zero otherwise |
| `Text.DecimalUnique` | update_abuseipdb_asns.py:170 | any digit string without a leading zero (or the single digit "0") whose value is `n` is `str(n)`, so the text written for each ASN is fully determined |
| `Text.SplitJoin` | update_abuseipdb_asns.py:170 | splitting a space-joined non-empty list of space-free strings at single spaces gives back the list |
| `RulesUpdate.AsnExpressionRoundTrip` | update_abuseipdb_asns.py:170 | the expression is the prefix `(ip.geoip.asnum in {`, then the decimal ASNs in input order joined by single spaces, then `})`; reading it back gives exactly the input list, so every input ASN appears, in order. An empty list would give `{}` |
| `RulesUpdate.AsnRule` | update_abuseipdb_asns.py:167-171 | the appended rule is named "Block Known Bad ASNs (AbuseIPDB)", has action "block" and the ASN expression, and its own name contains "ASN" |
| `RulesUpdate.WithoutAsnRules` | update_abuseipdb_asns.py:163 | the comprehension keeps exactly the rules whose name does not contain "ASN", each as often as before, in their original relative order |
| `RulesUpdate.SingleAsnRuleAfterUpdate` | update_abuseipdb_asns.py:162-175 | after the update exactly one rule has "ASN" in its name when the ASN list is non-empty and none when it is empty. That one rule is the appended rule, in last place |
| `RulesUpdate.OtherRulesUntouched` | update_abuseipdb_asns.py:163-172 | the non-ASN rules of the result are exactly the non-ASN rules of the input, in order, and they form the front of the result |
| `RulesUpdate.UpdateIdempotent` | update_abuseipdb_asns.py:163-172 | updating twice with the same ASN list gives the same rules list as updating once |
| `RulesUpdate.RuleDocument.ReplaceAsnRule` | update_abuseipdb_asns.py:162-175 | the in-place update (reassign the filtered list, then append the rule when the list is non-empty) leaves `rules` equal to the updated list of the old rules |
| `Cleanup.ZoneRulesets` | update_abuseipdb_asns.py:180-198 | listing a zone yields nothing without a token or on a non-200 status. Otherwise it yields the response's "result" list, or nothing when that key is absent |
| `Cleanup.CustomZoneRulesets` | update_abuseipdb_asns.py:231-234 | the kept rulesets are exactly those with phase "http_request_firewall_custom" and kind "zone", with their multiplicities, in list order |
| `Cleanup.ManagedNameExamples` | update_abuseipdb_asns.py:246 | "Terraform Managed WAF" passes the case-insensitive keyword test and "Custom Rule" does not |
| `Cleanup.ManagedNameIgnoresCase` | update_abuseipdb_asns.py:246 | for every name, the keyword test gives the same verdict on the name and on its lower-cased form, so the case of the name never matters |
| `Cleanup.ManagedNameWithin` | update_abuseipdb_asns.py:246 | for every managed name and any text added before or after it, the longer name is managed too: the test looks for a keyword anywhere in the name |
| `Cleanup.ManagedNameExamplesInZone` | update_abuseipdb_asns.py:225-248 | a token and a zone whose listing holds the custom zone rulesets "Terraform Managed WAF" (id r1) and "Custom Rule" (id r2): the cleanup issues exactly one DELETE, for r1, with the DELETE's verdict |
| `Cleanup.DeleteSucceeded` | update_abuseipdb_asns.py:210-215 | a deletion reports success iff the status is 200 or 204 |
| `Cleanup.CleanupExistingRulesets` | update_abuseipdb_asns.py:217-250 | walking the two zones of the registry `ZONE_IDS` in their defined order, the nested loops issue exactly the planned deletions: none without a token, then zone by zone, each zone's in list order |
| `Cleanup.DeleteManagedRulesets` | update_abuseipdb_asns.py:242-250 | the inner loop issues one DELETE per custom ruleset with a managed name, in list order, and skips the rest |
| `Cleanup.CleanupDeletesExactlyTargets` | update_abuseipdb_asns.py:219-250 | a deletion is issued iff a token is present and it belongs to a ruleset of a configured zone whose listing returned 200. That ruleset must have phase "http_request_firewall_custom", kind "zone", and a lower-cased name containing "terraform", "waf" or "managed"; its success flag is the status verdict |
| `Cleanup.ZoneTargets` | update_abuseipdb_asns.py:229-246 | a zone's deletion targets are exactly the rulesets of its listing with the custom phase, kind "zone" and a managed name, each as often as it is listed, in listing order |
| `Cleanup.ZoneRequestsInListOrder` | update_abuseipdb_asns.py:242-248 | the inner loop's DELETEs are one per custom ruleset with a managed name, in list order: the (zone, ruleset id) sequence equals the ids of the filtered list |
| `Cleanup.CleanupRequestsInOrder` | update_abuseipdb_asns.py:219-248 | the cleanup's DELETE requests, as (zone, ruleset id) pairs, are: none without a token, otherwise each zone's targets one after another, zone by zone in the given order, and within a zone in listing order, one request per target |
| `Cleanup.FailedDeletesDoNotStopCleanup` | update_abuseipdb_asns.py:242-250 | whatever the DELETEs answer, the same rulesets are deleted in the same order: a failed deletion does not block the remaining ones |

## Left out

- HTTP calls, headers and URLs (lines 86-95, 186-192, 202-208). They are network I/O. Each fetch outcome, listing response and DELETE status is an input to the model.
- YAML loading and dumping and the file reads and writes (lines 159-160, 177-178). The document is modelled as its already-parsed `rules` list of `{name, action, expression}` records. Other top-level keys and other rule fields are not modelled.
- Environment-variable reads (lines 5-6). They become the booleans `keyPresent` and `tokenPresent`.
- All printing. The fetcher's `FetchReport` stands in for what is logged: the branch, the entry count, the top countries and the high-risk flag.
- The `__main__` sequence (lines 252-260). It runs cleanup, fetch and update in a fixed order and has no logic of its own.
- `str.lower()`: only ASCII letters are lower-cased. Python's Unicode case mapping is not modelled.
- Exceptions the script does not catch: a missing `rules` key or a rule without `name` in the document, a ruleset without `name` or `id`, and a body that is not JSON in `get_zone_rulesets`. The same holds for network exceptions raised by the listing GET or the DELETE in the cleanup. Each of these ends the run. The model assumes well-formed inputs and completed calls there.
- A JSON `null` `countryCode`. The Python code would count it under the key `None`. The model's entries have either no `countryCode` or a string one.
- ASNs are non-negative integers (`nat`). `str` of a negative number is not modelled.
- The GET answer of a zone is a function of its zone id, and the DELETE status a function of (zone id, ruleset id). A listing that names the same ruleset id twice therefore gets the same verdict for both DELETEs in the model, where the live API could answer 200 and then 404. This affects only the `succeeded` flags of the log, and so the status-verdict part of `CleanupDeletesExactlyTargets`. Which requests are issued, and in what order, does not depend on the statuses (`FailedDeletesDoNotStopCleanup`).
- A 200 response whose body is not JSON takes the network-error branch. That is the behaviour from requests 2.27 on, where the decode error is a `RequestException`. Older versions raise `ValueError`, which would take the unexpected-error branch. The returned ASNs are the same either way.
- The 50-entry bound on the ASNs in the rule comes from the fetch, not from the update. `UpdatedRules` accepts any list, as `update_rules_yaml` does.
- CountryStats.SortByCountDesc: the contract does not state stability (items with equal counts keep their order of appearance). The definition is a stable insertion sort, as Python's `sorted` is.
- CountryStats.TopCountries: for the same reason, its contract does not say which countries are shown when counts tie at the cut.
