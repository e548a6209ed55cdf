# NB Chain Link, modelled in Dafny

NB Chain Link is a WordPress plugin that lets independent sites form web
rings. A site can *host* rings: it keeps the ring's member list and its queue
of pending requests, and admits, approves, rejects and removes members. A site
can also *join* rings hosted elsewhere. For those it keeps a local mirror that
it refreshes by pulling the host's ring snapshot. Every hour a cron job probes
up to three random members of each hosted ring. A member that fails three
probes is marked dead, and one successful probe revives it. After the probes,
every mirror is synced. Members rate each other from 1 to 5. A rating is only
accepted from a site that answers the plugin's ping endpoint, and a second
rating by the same rater replaces the first. On the page, a widget shows the
live members of a ring as a carousel or a directory with star ratings. The
admin form suggests a ring id from the ring name.

The model follows the plugin's three core files:

- `nb-chain-link.php`, class `NB_Chain_Link`:
  - the REST endpoints (`api_get_ring`, `api_join_ring`, `api_submit_rating`);
  - the cron cycle (`run_health_checks`, `sync_all_joined_rings`);
  - the ring cases of `handle_admin_actions`;
  - the widget's server side (`render_widget_shortcode`, `render_carousel_widget`, `render_stars`);
  - the same-site AJAX rating (`ajax_submit_rating`);
- `js/widget.js`: carousel navigation, the random button, the displayed average and its stars;
- `js/admin.js`: the ring-id suggestion, its `manual` flag and the invite-code row.

## Layout

| file | module | what it holds |
|---|---|---|
| `wrappers.dfy` | `Wrappers` | `Option` |
| `php.dfy` | `Php` | `empty()`, the short ternary `?:` and `trailingslashit` on strings |
| `ratings.dfy` | `Ratings` | a member's ratings as an ordered association list keyed by rater url, with upsert and sum |
| `ring.dfy` | `Ring` | members, hosted rings, joined-ring mirrors, the stores, url scans, API errors, endpoint URLs, the store invariants |
| `membership.dfy` | `Membership` | join admission, approve, reject, remove, curated addition, create, delete, leave, and the join request sent to a host |
| `rating_service.dfy` | `RatingService` | the federated rating endpoint and the same-site AJAX rating |
| `health.dfy` | `Health` | the probe state machine, the sampled ring check, the cycle; the in-place probe loop |
| `snapshot.dfy` | `Snapshot` | the ring snapshot endpoint |
| `sync.dfy` | `Sync` | the mirror pull, and the link from a host's snapshot to the mirror it produces |
| `display.dfy` | `Display` | the live-member filter, the widget outcome, the carousel start, average and stars |
| `widget.dfy` | `WidgetScript` | `widget.js`: truncating `%`, prev/next, the random pick, average and stars by loops; class `Carousel` |
| `admin_script.dfy` | `AdminScript` | `admin.js`: the slug, the form as a state machine, and class `RingForm` |
| `node.dfy` | `Node` | class `ChainLink`: the stored options as fields; the handlers as methods proved against the functions above |

How the model is built:

- Pure logic is written as functions. The lemmas beside them state what the plugin promises.
- The handlers change state step by step, so they are methods of `Node.ChainLink`. Each method carries out the PHP's scans and loops. Its `ensures` says its answer and new state are exactly what the matching function gives.
- The widget's `currentIndex` and the admin form's fields are classes whose handler methods update their fields.

Decisions in the model:

- **Stored options become fields.** The options `nb_chain_link_hosted`, `nb_chain_link_joined` and the site info become the fields `hosted`, `joined` and `site`.
- **Ratings keep their order.** A PHP array keeps insertion order, and `$ratings[$rater] = $v` overwrites an entry in place or appends one. Ratings are therefore a sequence of `Vote`s, and "one entry per rater" is an invariant (`UniqueRaters`) that the model proves is preserved.
- **Integers only.** Averages shown on screen are kept as a sum and a count. `floor(avg)` becomes `sum / count`, which for a positive count is the same as floor. "The fraction is at least 0.5" becomes `2 * (sum % count) >= count`.
- **Two notions of "empty".** On strings, PHP's `empty()` and `?:` treat both "" and "0" as empty (`Php.Empty`). JavaScript's `||` treats only "" as empty; this difference is proved as `WidgetScript.VisitUrlsAgree`.
- **Absent versus empty.** A request parameter that is absent is `None`. PHP's strict `!==` never matches `null` against a string.
- **Truncating remainder.** JavaScript's `%` truncates toward zero; it is written out as `WidgetScript.JsRem`.

Anything external is a parameter:

- `probe` answers a GET of a ping URL.
- `fetch` answers the mirror's GET.
- `proxy` answers the forwarded rating POST.
- A `JoinHttp` value is the host's answer to the join POST.
- `samples` are `array_rand`'s picks: `ValidSample` gives min(3, N) distinct positions.
- `draws` are the successive `Math.random()` indices.
- `now` is `time()`.

### Behaviour worth knowing

- **Approval moves the stored record.** Approval moves the pending record, exactly as stored, to the end of `members`. It does not reset `joined`, `fails`, `status` or `ratings`. A pending record already carries the values it got at join time (`ApproveMoves`).
- **Ring creation does not check the invite code.** `create_ring` accepts a private ring with an empty secret, and stores whatever secret is posted for the other types.
- **Curated additions are not deduplicated.** `add_curated_member` appends without the url scan and without looking at the ring type, so it can list a url twice (`AddCuratedCanDuplicate`). Url uniqueness is proved for join, approve, reject, remove, both rating entry points and health checks.
- **The rating endpoint checks in a fixed order.** It checks the score range, then that the ring exists, then pings the rater, and only then looks for the target member. An unverified rater therefore hears "forbidden" even when the target does not exist.
- **A sync clears `pending` on any successful fetch.** This happens even while the host still has the request queued (`PendingClearedWhileQueued`).
- **A private ring whose secret is "" or "0" never syncs.** `empty()` holds for both, so the secret is never sent and the host refuses the fetch; the mirror stays as it was (`MirrorFollowsHost`).
- **The server and the script draw different star glyphs.** The plugin file holds its star glyphs mis-encoded: each filled or half star is the three characters U+201A U+2260 U+00EA, each empty star U+201A U+00F2 U+00DC, so five stars are fifteen characters (`FiveGlyphs`). The widget script draws the real U+2B50 and U+2606, one character per star. Both draw the same stars from the same counts, but the strings differ whenever a star is drawn, so the first prev/next click replaces the page's stars with different-looking ones (`ScriptStarsMatchServer`).
- **A name edit re-targets the ring cards' forms.** The script writes the suggested id into every `input[name="ring_id"]` on the page. That includes the hidden `ring_id` fields of each card's approve/reject, remove, curated and delete forms. Until the id is typed by hand, those forms then post the new name's slug instead of their own ring (`NameEditRetargetsCards`, `CardsFollowName`). The `manual` flag is read from and written to the id text field only, because jQuery's `.data()` getter reads the first match.
- **The same-site rating succeeds without a matching member.** On a hosted ring it bumps `updated` and answers "Rating saved" even when no member has the target url (`LocalRateHosted`).

## Model

| member | source | states |
|---|---|---|
| Php.Untrail | nb-chain-link.php:339 | the result is a prefix of the input, ends in neither '/' nor '\', and everything cut off is a slash |
| Php.TrailingSlashIt | nb-chain-link.php:339 | the endpoint base always ends in '/' |
| Php.TrailingSlashItExact | nb-chain-link.php:339 | exactly one slash ends the result; before it is the input with its trailing run of '/' and '\' removed, and nothing else is removed |
| Php.TrailingSlashItIdempotent | nb-chain-link.php:376 | applying `trailingslashit` twice equals applying it once |
| Php.TrailingSlashAbsorbs | nb-chain-link.php:284 | `site` and `site/` give the same endpoint base |
| Ratings.Raters | nb-chain-link.php:301-302 | the raters are exactly the keys of the ratings list |
| Ratings.Upsert | nb-chain-link.php:302 | `$ratings[$rater] = $v` on an ordered list; what it promises is stated by `UpsertLookup`, `UpsertRaters`, `UpsertUnique` and `UpsertOverwrites` |
| Ratings.Lookup | nb-chain-link.php:301-302 | absent exactly when the rater has not rated; otherwise an entry (rater, value) is in the list |
| Ratings.UpsertLookup | nb-chain-link.php:302 | after `$ratings[$rater] = $v` the rater's score is `$v` and every other rater's is unchanged |
| Ratings.UpsertRaters | nb-chain-link.php:302 | an upsert adds the rater to the key set and grows the list only for a new rater |
| Ratings.UpsertUnique | nb-chain-link.php:301-302 | keying by rater url keeps at most one rating per rater |
| Ratings.UpsertInRange | nb-chain-link.php:273-302 | with the 1..5 range check, every stored score stays in 1..5 |
| Ratings.UpsertOverwrites | nb-chain-link.php:301-302 | rating twice leaves exactly the second score, as if the first had never happened |
| Ratings.TotalBounds | nb-chain-link.php:1146-1149 | scores in 1..5 sum to between N and 5N, so the average lies in [1, 5] |
| Ratings.Total | nb-chain-link.php:1146-1149 | `array_sum` of the scores; bounded by `TotalBounds`, and computed by the script's loop in `WidgetScript.AverageRating` |
| Ring.IndexOfUrl | nb-chain-link.php:228-232 | the url scan finds the first position with that url, and finds nothing exactly when no entry has it |
| Ring.IndexOfUrlByUrls | nb-chain-link.php:295-305 | two lists with the same urls give the same scan result |
| Ring.RemoveAt | nb-chain-link.php:571-572 | `unset` plus `array_values`: one entry shorter, earlier entries kept, later ones shifted down by one |
| Membership.JoinRefusals | nb-chain-link.php:200-225 | each refusal (404 unknown ring, 403 curated, 403 bad invite code, 400 missing url or name) happens exactly under its condition, in order, and saves nothing |
| Membership.Join | nb-chain-link.php:196-265 | the join admission; its refusals, dedup, open admission and queueing are stated by the `Join*` lemmas |
| Membership.JoinDedup | nb-chain-link.php:228-239 | a url already listed answers `already_member` (members first) or `pending`, and changes nothing |
| Membership.JoinOpen | nb-chain-link.php:241-258 | an open ring appends exactly one fresh member, bumps `updated`, answers `approved`, and changes nothing else |
| Membership.CandidateShape | nb-chain-link.php:241-251 | the new record is active, has 0 fails and no ratings, is stamped now, and its page url falls back to its url |
| Membership.JoinQueues | nb-chain-link.php:260-264 | a moderated or private ring queues exactly one pending entry and answers `pending` |
| Membership.OnlyOpenApproves | nb-chain-link.php:254-258 | only an open ring ever answers `approved` |
| Membership.JoinTwice | nb-chain-link.php:228-264 | repeating a join request changes nothing further and answers `already_member`/`pending` (or the same refusal) |
| Membership.JoinKeepsUnique | nb-chain-link.php:228-264 | a join keeps every url unique across members and pending |
| Membership.JoinKeepsOk | nb-chain-link.php:241-264 | a join keeps every stored member well formed |
| Membership.NoMatchNoChange | nb-chain-link.php:565-620 | approve, reject and remove with no such ring or url report nothing and change nothing |
| Membership.Approve | nb-chain-link.php:565-583 | approval; stated by `ApproveMoves`, `ApproveKeepsUnique` and `ListOpsKeepOk` |
| Membership.Reject | nb-chain-link.php:585-601 | rejection; stated by `RejectDrops`, `DropIsComplete` and `RejectKeepsUnique` |
| Membership.Remove | nb-chain-link.php:603-620 | removal; stated by `RemoveDrops`, `DropIsComplete` and `RemoveKeepsUnique` |
| Membership.ApproveMoves | nb-chain-link.php:565-583 | approval moves the first matching pending record unchanged to the end of members, keeps the rest in order, and bumps `updated` |
| Membership.RejectDrops | nb-chain-link.php:585-601 | rejection drops the first matching pending record only, keeps the order, and leaves `updated` alone |
| Membership.RemoveDrops | nb-chain-link.php:603-620 | removal drops the first matching member only, keeps the order, and bumps `updated` |
| Membership.DropIsComplete | nb-chain-link.php:585-620 | with unique urls, the url is gone from the list after reject or remove |
| Membership.ListOpsKeepUnique | nb-chain-link.php:565-620 | approve, reject and remove keep urls unique across members and pending |
| Membership.ApproveKeepsUnique | nb-chain-link.php:565-583 | moving a pending record to the end of members keeps urls unique across members and pending |
| Membership.RejectKeepsUnique | nb-chain-link.php:585-601 | dropping a pending record keeps urls unique |
| Membership.RemoveKeepsUnique | nb-chain-link.php:603-620 | dropping a member keeps urls unique |
| Membership.ListOpsKeepOk | nb-chain-link.php:565-620 | approve, reject and remove keep every stored member well formed |
| Membership.AddCuratedAppends | nb-chain-link.php:644-666 | a curated addition appends one fresh member for any ring type and bumps `updated` |
| Membership.AddCuratedCanDuplicate | nb-chain-link.php:644-663 | a curated addition can list a url twice: there is no dedup scan |
| Membership.AddCurated | nb-chain-link.php:644-666 | the curated addition; stated by `AddCuratedAppends` and `AddCuratedCanDuplicate` |
| Membership.CreateRing | nb-chain-link.php:470-506 | ring creation; stated by `CreateRingShape` |
| Membership.CreateRingShape | nb-chain-link.php:470-506 | an existing id is refused unchanged; a new ring stores the given name, type and secret, has the full host record as its only member, nothing pending, and both timestamps now; every other ring is kept |
| Membership.DeleteRing | nb-chain-link.php:622-631 | the ring is forgotten, with no tombstone, and every other ring is kept |
| Membership.LeaveRing | nb-chain-link.php:633-642 | the mirror is forgotten and every other mirror is kept |
| Membership.JoinRemoteRecords | nb-chain-link.php:508-563 | only a 200 answer records a mirror under the derived key: empty, never synced, named by its id, pending iff the host said so. The notice is "Joined!" for an approved answer and "Request pending approval" otherwise, "Join failed: " plus the host's message (or "Unknown error") for a non-200, and the connection error when the host is unreachable |
| Membership.JoinRemote | nb-chain-link.php:529-563 | the outcome of the join request: the mirror recorded on a 200, and the notice shown; stated by `JoinRemoteRecords` |
| Membership.JoinPostFor | nb-chain-link.php:513-528 | the join POST: the ring endpoint plus `/join`, with the site's identity and the invite code as body; stated by `JoinPostTargetsMirror` |
| Membership.JoinPostTargetsMirror | nb-chain-link.php:513-528 | the join POST goes to the endpoint the recorded mirror later syncs from, plus `/join`; a trailing slash on the host url changes nothing; the host would list this site under its own url, name, image and excerpt, and its page url falls back to its url |
| RatingService.RateFirstChangesOne | nb-chain-link.php:295-305 | the loop rates only the first member with the target url, and only its ratings change |
| RatingService.RateFirstKeepsOk | nb-chain-link.php:295-305 | rating with a score in 1..5 keeps every member well formed |
| RatingService.RateFirst | nb-chain-link.php:295-305 | the by-reference foreach that rates the first member with the target url; stated by `RateFirstChangesOne` and `RateFirstKeepsUrls` |
| RatingService.RateFirstKeepsUrls | nb-chain-link.php:295-305 | the loop keeps the list's length and every url |
| RatingService.SubmitRefusals | nb-chain-link.php:267-310 | each refusal (score range, unknown ring, unverified rater, unknown target) happens exactly under its condition, in order, and saves nothing |
| RatingService.Submit | nb-chain-link.php:267-315 | the federated rating endpoint; stated by `SubmitRefusals`, `SubmitRecords`, `SubmitCases` and `SubmitLastWins` |
| RatingService.SubmitRecords | nb-chain-link.php:295-314 | an accepted vote sets the rater's score on the first matching member, keeps all other scores, members and rings, and bumps `updated` |
| RatingService.SubmitCases | nb-chain-link.php:267-314 | the store after a submission takes one of two forms: exactly as before, or with the vote recorded |
| RatingService.SubmitLastWins | nb-chain-link.php:301-302 | a later vote by the same rater replaces the earlier one |
| RatingService.SubmitKeepsOk | nb-chain-link.php:267-314 | submissions keep one rating per rater and every score in 1..5 |
| RatingService.RateKeepsUnique | nb-chain-link.php:295-305 | rating a member changes no url, so a ring keeps its urls unique |
| RatingService.SubmitKeepsUnique | nb-chain-link.php:267-314 | a submission keeps every hosted ring's urls unique |
| RatingService.LocalRateHosted | nb-chain-link.php:1259-1278 | on a hosted ring the site votes as itself, without a ping, answers "Rating saved" and bumps `updated`, even when the target is missing |
| RatingService.LocalRate | nb-chain-link.php:1248-1313 | the same-site rating; stated by `LocalRateHosted`, `LocalRateForwards` and `LocalRateRefusals` |
| RatingService.LocalRateForwards | nb-chain-link.php:1280-1309 | on a joined ring nothing local changes, and the answer is a success exactly when the host answers 200 |
| RatingService.LocalRateRefusals | nb-chain-link.php:1248-1313 | an invalid score or an unknown ring fails and changes nothing |
| RatingService.LocalRateKeepsOk | nb-chain-link.php:1259-1278 | the same-site rating keeps every stored member well formed |
| RatingService.LocalRateKeepsUnique | nb-chain-link.php:1259-1278 | the same-site rating keeps every hosted ring's urls unique |
| Health.ProbeFailure | nb-chain-link.php:347-352 | a failed probe adds one failure, sets the change flag, and marks the member dead from the third failure on |
| Health.ProbeStep | nb-chain-link.php:346-360 | one probe of one member; stated by `ProbeFailure`, `ProbeSuccess`, `ProbeChangesIffTransition` and `ThreeStrikes` |
| Health.ProbeSuccess | nb-chain-link.php:353-360 | a successful probe resets failures to 0 and reactivates the member |
| Health.ProbeChangesIffTransition | nb-chain-link.php:347-360 | a probe changes the member exactly when it sets `$changed` |
| Health.ThreeStrikes | nb-chain-link.php:347-360 | a healthy member survives two failures, dies at the third, and one success revives it |
| Health.ProbeKeepsOk | nb-chain-link.php:347-360 | a member is dead only with three or more failures |
| Health.CheckMembers | nb-chain-link.php:337-362 | probing a sample keeps the member count |
| Health.CheckRing | nb-chain-link.php:326-361 | one ring's check, skipping a ring with no members; stated by `CheckRingKeepsInvariants` and `RingChangesIffTransition` |
| Health.Cycle | nb-chain-link.php:326-362 | a cycle keeps the set of rings |
| Health.CheckTouchesSampleOnly | nb-chain-link.php:330-337 | only sampled positions change, and at most min(3, N) of them |
| Health.RingChangesIffTransition | nb-chain-link.php:337-362 | a ring changes exactly when one of its sampled members fails or recovers |
| Health.CycleSavesOnlyChanges | nb-chain-link.php:364-366 | the stored rings are unchanged by a cycle exactly when nothing failed or recovered, which is when nothing is saved |
| Health.CycleChangesHealthOnly | nb-chain-link.php:337-362 | checks touch only a member's `status` and `fails`; urls, ratings, pending and timestamps stay |
| Health.CycleKeepsInvariants | nb-chain-link.php:321-369 | health checks keep urls unique and members well formed |
| Health.CheckRingKeepsInvariants | nb-chain-link.php:337-360 | checking one ring keeps its urls unique and its members well formed |
| Health.ProbeSampled | nb-chain-link.php:337-362 | the in-place probe loop yields the checked members and sets its flag exactly on a transition |
| Health.ProbeOne | nb-chain-link.php:346-360 | the branchy probe of one member gives the probe state machine's result and sets its flag exactly on a transition |
| Snapshot.GetRingAnswers | nb-chain-link.php:169-194 | 404 exactly for an unknown ring; 403 exactly for a private ring with an absent or wrong secret; otherwise all members (dead ones too), name, type and `updated` |
| Snapshot.GetRing | nb-chain-link.php:169-194 | the ring snapshot endpoint; stated by `GetRingAnswers`, and by `Sync.MirrorFollowsHost`, which ties a mirror's sync to what this endpoint answers |
| Sync.SyncAll | nb-chain-link.php:371-402 | syncing keeps the set of mirrors |
| Sync.RequestFor | nb-chain-link.php:375-379 | the GET a mirror sends: the host's ring endpoint, with the secret only when it is not empty; used by `MirrorFollowsHost` |
| Sync.SyncRing | nb-chain-link.php:384-393 | one mirror pull; stated by `SyncRingOutcome` and `SyncRingTwice` |
| Sync.SyncRingOutcome | nb-chain-link.php:384-393 | a successful fetch replaces the members wholesale, takes the name if present, stamps `last_sync` and clears `pending`; otherwise the mirror is untouched |
| Sync.SyncIdempotent | nb-chain-link.php:371-402 | syncing twice against the same answers equals syncing once |
| Sync.SyncRingTwice | nb-chain-link.php:384-393 | pulling one mirror twice against the same answer equals pulling it once |
| Sync.SyncNothingFetched | nb-chain-link.php:396-401 | with no successful fetch nothing changes |
| Sync.MirrorFollowsHost | nb-chain-link.php:371-393 | against a host running the plugin, a mirror becomes a copy of the host's member list and name, unless the ring is private and the secret is wrong or is "" or "0" |
| Sync.PendingClearedWhileQueued | nb-chain-link.php:390 | `pending` is cleared even while the host still queues the request |
| Display.LiveMembers | nb-chain-link.php:1088-1091 | every kept entry is active, and an entry is kept exactly when it is not dead |
| Display.LiveMembersInOrder | nb-chain-link.php:1088-1091 | `array_filter` then `array_values` keeps order and repetitions: the result is the entries at every non-dead position, read in increasing position order |
| Display.WidgetShowsLive | nb-chain-link.php:1049-1095 | a rendered widget shows exactly the live members of the ring the id resolves to (hosted first); "no active members" implies all of them are dead |
| Display.WidgetOutcomes | nb-chain-link.php:1057-1095 | the "specify a ring" error exactly for a `ring` of "" or "0"; otherwise "not found or empty" exactly for an unknown id or a ring without members, "no active members" exactly when the ring has members and all are dead, and the widget exactly when some member is not dead |
| Display.LiveMembersEmpty | nb-chain-link.php:1088-1093 | the dead-member filter leaves nothing exactly when every member is dead |
| Display.Widget | nb-chain-link.php:1049-1095 | the shortcode's outcome; stated by `WidgetOutcomes` and `WidgetShowsLive` |
| Display.CarouselStart | nb-chain-link.php:1116-1127 | the carousel starts one past the first entry that is the site (so the previous position is the site), or at 1 % N when the site is absent |
| Display.StepBack | nb-chain-link.php:1126 | one step forward modulo N, then one step back, returns to the start |
| Display.StarCounts | nb-chain-link.php:1226-1229 | full = floor(average), half iff the fraction is at least 0.5, and full + half + empty = 5 |
| Display.StarsOfValidRatings | nb-chain-link.php:1226-1229 | scores in 1..5 give 1..5 full stars, at most one half star, no negative count, and no half star once there are five full |
| Display.Repeat | nb-chain-link.php:1231-1233 | `str_repeat` gives `n` copies of the glyph, and none for a count below one |
| Display.StarBlocksAt | nb-chain-link.php:1226-1236 | the stars in drawing order: as many as the positive counts add up to; filled below `full + half`, empty from there on |
| Display.ConcatThree | nb-chain-link.php:1231-1233 | joined three-character glyphs put the k-th glyph at positions 3k..3k+3 |
| Display.GlyphsAt | nb-chain-link.php:1226-1236 | every star the server draws is three characters of the file's glyph, the k-th star at positions 3k..3k+3 |
| Display.FiveGlyphs | nb-chain-link.php:1226-1236 | valid ratings draw exactly five stars as fifteen characters: star k is the filled glyph U+201A U+2260 U+00EA for k < full + half and the empty glyph U+201A U+00F2 U+00DC otherwise |
| Display.Glyphs | nb-chain-link.php:1226-1236 | the server's star string, joined from the file's mis-encoded glyphs; stated by `GlyphsAt` and `FiveGlyphs` |
| Display.RatingShownIffRated | nb-chain-link.php:1146-1152 | with scores in 1..5 the rating line appears exactly when the member has been rated |
| Display.VisitUrl | nb-chain-link.php:1163 | the link is the page url when that is neither "" nor "0", and the url otherwise |
| WidgetScript.JsRem | js/widget.js:28 | the remainder differs from the dividend by a multiple of the divisor, lies in [0, n) for a non-negative dividend and in (-n, 0] for a negative one: truncation toward zero |
| WidgetScript.NavigationCycles | js/widget.js:27-49 | from any position prev and next stay in the list, wrap around at the ends, and undo each other |
| WidgetScript.CarouselStepsBackToSite | js/widget.js:28 | one "previous" click from the server's starting index lands on the site's own entry |
| WidgetScript.ScriptVisitUrl | js/widget.js:141 | the script opens the page url when it is non-empty, and the url when it is "" |
| WidgetScript.VisitUrlsAgree | js/widget.js:136 | the script's link agrees with the server's except when the page url is "0" |
| WidgetScript.PickRandom | js/widget.js:52-63 | the pick is in range; with several members it redraws only while it hits the site, at most ten times; a pick that is still the site means ten redraws were used |
| WidgetScript.AverageRating | js/widget.js:112-119 | the loop's total is the sum of the scores and its count the number of raters |
| WidgetScript.RenderStars | js/widget.js:145-156 | the counting loops draw U+2B50 for each full and half star and U+2606 for each empty one, from the same counts as the server's `render_stars` (`Display.StarCounts`) |
| WidgetScript.ScriptStarsMatchServer | js/widget.js:145-156 | star k is filled in the script exactly when it is filled on the server; each server star is three characters; the two strings differ whenever a star is drawn |
| WidgetScript.Carousel.ClickPrev | js/widget.js:27-38 | `currentIndex` moves to the previous position with wrap-around, then the member is opened (live mode) or shown |
| WidgetScript.Carousel.ClickNext | js/widget.js:40-49 | `currentIndex` moves to the next position with wrap-around, then the member is opened or shown |
| WidgetScript.Carousel.ClickRandom | js/widget.js:52-66 | the random button opens the page of the drawn member, redraws only while the draw is the site, at most ten times, and with several members opens the site only when all ten redraws hit it; `currentIndex` is left alone |
| WidgetScript.Carousel.constructor | js/widget.js:18-24 | the widget starts at the page's `data-index`, or at 0 when that is absent |
| AdminScript.LowerAll | js/admin.js:64 | no ASCII capital is left; the result is at least as long as the input; without U+0130 it has the same length and each character is that character's lower case |
| AdminScript.LowerAllAppend | js/admin.js:64 | lower-casing works character by character, so it distributes over concatenation |
| AdminScript.StripDisallowed | js/admin.js:65 | every character of the result is in `[a-z0-9\s-]`, and the result is no longer than the input; which characters survive is stated by `StripAppend`, `StripOne` and `KeptSurvive` |
| AdminScript.StripAppend | js/admin.js:65 | the filter distributes over concatenation |
| AdminScript.StripOne | js/admin.js:65 | one character survives exactly when it is in `[a-z0-9\s-]` |
| AdminScript.KeptSurvive | js/admin.js:65 | an input made only of `[a-z0-9\s-]` passes the filter unchanged |
| AdminScript.Prefix | js/admin.js:67 | `substring(0, 30)` is the first min(30, length) characters |
| AdminScript.CollapseSpaces | js/admin.js:66 | no whitespace is left, the result is no longer than the input, and an input without whitespace is unchanged |
| AdminScript.CollapseSpacesPointwise | js/admin.js:66 | the result is, position by position, each non-whitespace character kept, a '-' for the first character of each whitespace run, and nothing for the rest of the run |
| AdminScript.CollapseFromSuffix | js/admin.js:66 | the position-by-position reading from k on equals the collapse of the rest of the input, after its leading whitespace when position k-1 is whitespace |
| AdminScript.SlugOfMyRing | js/admin.js:63-67 | the name "My Ring" suggests the id "my-ring" |
| AdminScript.SlugCharacters | js/admin.js:63-67 | a suggested id holds only `[a-z0-9-]` and no whitespace |
| AdminScript.SlugLength | js/admin.js:67 | a suggested id is at most 30 characters |
| AdminScript.Slug | js/admin.js:63-67 | the suggested id; stated by `SlugCharacters`, `SlugLength`, `SlugIdempotent` and `SlugOfSpecialCapitals` |
| AdminScript.SlugIdempotent | js/admin.js:63-67 | turning a suggested id into a slug again returns it unchanged |
| AdminScript.SlugOfSpecialCapitals | js/admin.js:63-67 | the dotted capital I suggests "i" and the Kelvin sign suggests "k": their lower cases pass the filter |
| AdminScript.FormInvariants | js/admin.js:12-78 | every sequence of form edits keeps the invite-code row shown exactly for private rings, and, while the id has not been hand-edited, keeps the id as the slug of the name |
| AdminScript.Step | js/admin.js:12-78 | one form event; stated by `FormInvariants` and `ManualIdIsKept` |
| AdminScript.LoadedSatisfiesInvariants | js/admin.js:9-19 | after page load and the initial `change` trigger, both invariants hold |
| AdminScript.ManualIdIsKept | js/admin.js:69-78 | once the id has been typed, the `manual` flag stays set, no name edit changes the id, and the cards' hidden ring ids keep their values |
| AdminScript.NameEditRetargetsCards | js/admin.js:62-73 | before the id is typed by hand, a name edit writes the slug into every card form's hidden `ring_id` (nb-chain-link.php:888, 925, 941, 957), replacing any different id |
| AdminScript.IdEditKeepsCards | js/admin.js:76-78 | typing in the id field changes only that field, not the cards' hidden ring ids |
| AdminScript.CardsFollowName | js/admin.js:62-78 | without hand edits of the id, the number of card forms is kept and, from the first name edit on, every card form posts the id field's value |
| AdminScript.RingForm.constructor | js/admin.js:9-19 | the form starts with an empty name and id, not manual, open type, the row hidden, and the cards' hidden ring ids as the page rendered them |
| AdminScript.RingForm.NameInput | js/admin.js:62-73 | a name edit sets the id, and every card form's hidden ring id, to its slug unless the id is manual |
| AdminScript.RingForm.IdInput | js/admin.js:76-78 | an id edit keeps the typed id and sets `manual` |
| AdminScript.RingForm.TypeChange | js/admin.js:12-18 | choosing a type shows the invite-code row exactly for private |
| Node.Scan | nb-chain-link.php:228-232 | the `foreach ... break` scan returns the first position with the url, or nothing |
| Node.RateInPlace | nb-chain-link.php:295-305 | the by-reference loop gives the rated list, and reports found exactly when some member has the target url |
| Node.CheckAll | nb-chain-link.php:326-362 | the loop over hosted rings yields the cycle's rings, and its flag is set exactly when some sampled member failed or recovered |
| Node.FetchAll | nb-chain-link.php:374-398 | the loop over mirrors yields the synced mirrors, and its flag is set exactly on a successful fetch |
| Node.SyncOne | nb-chain-link.php:387-393 | the nested checks on one fetch give the mirror pull's result, and report a fetch exactly when it succeeded with members |
| Node.ChainLink.constructor | nb-chain-link.php:96-106 | a fresh plugin has no hosted and no joined rings (`get_option` defaults to an empty array) and the given site identity |
| Node.ChainLink.ApiGetRing | nb-chain-link.php:169-194 | the endpoint answers the ring snapshot and changes nothing |
| Node.ChainLink.ApiJoinRing | nb-chain-link.php:196-265 | the handler's answer and saved store are those of the join admission; mirrors and site are untouched |
| Node.ChainLink.ApiSubmitRating | nb-chain-link.php:267-315 | the handler's answer and saved store are those of the rating submission |
| Node.ChainLink.AjaxSubmitRating | nb-chain-link.php:1248-1313 | the handler's answer and saved store are those of the same-site rating |
| Node.ChainLink.RunHealthChecks | nb-chain-link.php:321-369 | the rings become the cycle's result; it reports saving exactly when a member failed or recovered; then every mirror is synced |
| Node.ChainLink.SyncAllJoinedRings | nb-chain-link.php:371-402 | the mirrors become the synced ones; it reports saving exactly when some fetch succeeded |
| Node.ChainLink.CreateRing | nb-chain-link.php:470-506 | the store becomes that of ring creation with this site as host member |
| Node.ChainLink.JoinRing | nb-chain-link.php:508-563 | the notice is the join-request outcome; a recorded mirror is followed by a sync of all mirrors, and a failure leaves the mirrors as they were |
| Node.ChainLink.ApproveMember | nb-chain-link.php:565-583 | the store becomes the approval's result |
| Node.ChainLink.RejectMember | nb-chain-link.php:585-601 | the store becomes the rejection's result |
| Node.ChainLink.RemoveMember | nb-chain-link.php:603-620 | the store becomes the removal's result |
| Node.ChainLink.DeleteRing | nb-chain-link.php:622-631 | the ring is deleted, and the handler reports whether it existed |
| Node.ChainLink.LeaveRing | nb-chain-link.php:633-642 | the mirror is dropped, and the handler reports whether it existed |
| Node.ChainLink.AddCuratedMember | nb-chain-link.php:644-666 | the store becomes the curated addition's result, and the handler reports whether the ring existed |

## Left out

- HTTP, JSON decoding, response codes and timeouts are outside the model. Every network answer is an input: the ping result, the fetched snapshot, the proxied rating answer and the join answer. What the remote side does with the POST bodies is not modelled either.
- `md5($host_url . $ring_id)` is modelled as the concatenation itself. Hash collisions are not modelled.
- WordPress sanitizers (`esc_url_raw`, `sanitize_text_field`, `sanitize_title`), nonces and capability checks, and option storage (`get_option`/`update_option`) are not modelled. The stored options are the class's fields. Requests are assumed already sanitized.
- HTML output, escaping and CSS classes are not modelled. So are the widget's mode, theme and width settings, and the directory widget's markup; the carousel and directory widgets share `LiveMembers` and the stars.
- WP-Cron scheduling and concurrency are not modelled. Each handler is one atomic step, so lost updates between concurrent requests are not captured.
- Randomness is an input: `samples` stand for `array_rand` and `draws` for `Math.random()`. The model does not capture uniformity.
- Floating point is not modelled: `number_format`/`toFixed` output is left out. The average is kept as an exact sum and count.
- `time()` is the parameter `now`.
- AdminScript.LowerAll: the model lower-cases ASCII capitals, U+0130 (to "i" and a combining dot) and the Kelvin sign U+212A (to "k"). Every other character is kept as it is. `toLowerCase` maps further non-ASCII capitals to non-ASCII small letters. The `[^a-z0-9\s-]` filter removes those either way, so `Slug` still agrees with the script.
- A ring type outside the four select options (a forged POST) is not representable.
- Display.Repeat: `str_repeat` with a negative count follows PHP 7 and yields "". PHP 8 would throw, but valid ratings never produce a negative count (`StarsOfValidRatings`).
- WidgetScript.Carousel.constructor: it requires the page's `data-index` to lie within the member list. The server always renders such an index.
- The rating popup and its AJAX call in `widget.js`, the media uploader, the member-list toggle and the copy-shortcode button in `admin.js` are left out. They are UI glue with no state of the core.
- The `save_site_info` and `save_widget_settings` admin actions, the `/ping` endpoint's body, and the plugin's activation hooks are left out. They only store or echo settings.
- WidgetScript.PickRandom: the site url the script compares against (`home_url('/')`) is a parameter. Whether it matches the url stored in the ring is not modelled.
