/**
 * Ratings: the federated `rate` endpoint (`api_submit_rating`), which demands
 * that the rater answer its own ping, and the same-site AJAX entry point
 * (`ajax_submit_rating`), which rates hosted rings directly and forwards
 * ratings on joined rings to their host.
 */
module RatingService {
  import opened Wrappers
  import opened Ratings
  import opened Ring

  datatype Rated = Rated

  /** The member with the rater's vote upserted. */
  function VoteOn(m: Member, rater: string, rating: int): Member {
    m.(ratings := Upsert(m.ratings, rater, rating))
  }

  /** The foreach-by-reference loop: the first member with the target url gets the vote; the rest are kept. */
  function RateFirst(ms: seq<Member>, target: string, rater: string, rating: int): seq<Member>
  {
    match IndexOfUrl(ms, target)
    case None => ms
    case Some(i) => ms[i := VoteOn(ms[i], rater, rating)]
  }

  /** Exactly the first member with the target url changes, and only in its `ratings`. */
  lemma RateFirstChangesOne(ms: seq<Member>, target: string, rater: string, rating: int)
    ensures var r := RateFirst(ms, target, rater, rating);
      && |r| == |ms|
      && (forall j :: 0 <= j < |ms| ==> r[j].url == ms[j].url)
      && (!HasUrl(ms, target) ==> r == ms)
      && (HasUrl(ms, target) ==>
            exists i :: 0 <= i < |ms|
              && ms[i].url == target
              && (forall j :: 0 <= j < i ==> ms[j].url != target)
              && r[i] == VoteOn(ms[i], rater, rating)
              && (forall j :: 0 <= j < |ms| && j != i ==> r[j] == ms[j]))
  {
  }

  /** Rating a member keeps every member well formed when the score is in range. */
  lemma {:induction false} RateFirstKeepsOk(ms: seq<Member>, target: string, rater: string, rating: int)
    requires AllOk(ms) && 1 <= rating <= 5
    ensures AllOk(RateFirst(ms, target, rater, rating))
  {
    match IndexOfUrl(ms, target) {
      case None =>
      case Some(i) =>
        UpsertUnique(ms[i].ratings, rater, rating);
        UpsertInRange(ms[i].ratings, rater, rating);
    }
  }

  /** `api_submit_rating`: range check, ring lookup, rater ping, target lookup, in that order. */
  function Submit(hosted: Hosted, id: string, target: string, rating: int, rater: string,
                  probe: string -> bool, now: int): (Reply<Rated>, Hosted)
  {
    if rating < 1 || rating > 5 then (Err(RatingOutOfRange), hosted)
    else if id !in hosted then (Err(RingNotFound), hosted)
    else if !probe(PingUrl(rater)) then (Err(RaterUnverified), hosted)
    else
      var ring := hosted[id];
      if !HasUrl(ring.members, target) then (Err(TargetNotFound), hosted)
      else (Ok(Rated), hosted[id := ring.(members := RateFirst(ring.members, target, rater, rating), updated := now)])
  }

  /** Every refusal leaves the store unchanged; which refusal is given follows the order of the checks. */
  lemma SubmitRefusals(hosted: Hosted, id: string, target: string, rating: int, rater: string,
                       probe: string -> bool, now: int)
    ensures var (reply, after) := Submit(hosted, id, target, rating, rater, probe, now);
      && (reply.Err? ==> after == hosted)
      && (reply == Err(RatingOutOfRange) <==> rating < 1 || rating > 5)
      && (reply == Err(RingNotFound) <==> 1 <= rating <= 5 && id !in hosted)
      && (reply == Err(RaterUnverified) <==> 1 <= rating <= 5 && id in hosted && !probe(PingUrl(rater)))
      && (reply == Err(TargetNotFound) <==>
            1 <= rating <= 5 && id in hosted && probe(PingUrl(rater)) && !HasUrl(hosted[id].members, target))
  {
  }

  /**
   * An accepted rating sets the rater's score on the first member with the
   * target url, leaves every other score, member and ring as it was, and bumps
   * `updated`.
   */
  lemma {:induction false} SubmitRecords(hosted: Hosted, id: string, target: string, rating: int, rater: string,
                                         probe: string -> bool, now: int, other: string)
    requires Submit(hosted, id, target, rating, rater, probe, now).0 == Ok(Rated)
    ensures var after := Submit(hosted, id, target, rating, rater, probe, now).1;
      var ring := hosted[id];
      && after.Keys == hosted.Keys
      && (forall k :: k in hosted && k != id ==> after[k] == hosted[k])
      && after[id] == ring.(members := after[id].members, updated := now)
      && |after[id].members| == |ring.members|
      && exists i :: 0 <= i < |ring.members|
          && ring.members[i].url == target
          && (forall j :: 0 <= j < i ==> ring.members[j].url != target)
          && (forall j :: 0 <= j < |ring.members| && j != i ==> after[id].members[j] == ring.members[j])
          && after[id].members[i] == ring.members[i].(ratings := after[id].members[i].ratings)
          && Lookup(after[id].members[i].ratings, rater) == Some(rating)
          && (other != rater ==> Lookup(after[id].members[i].ratings, other) == Lookup(ring.members[i].ratings, other))
  {
    var ring := hosted[id];
    RateFirstChangesOne(ring.members, target, rater, rating);
    var i := IndexOfUrl(ring.members, target).value;
    UpsertLookup(ring.members[i].ratings, rater, rating, other);
  }

  /** The guards `Submit` checks before it records a vote. */
  predicate Accepts(hosted: Hosted, id: string, target: string, rating: int, rater: string, probe: string -> bool) {
    1 <= rating <= 5 && id in hosted && probe(PingUrl(rater)) && HasUrl(hosted[id].members, target)
  }

  lemma SubmitCases(hosted: Hosted, id: string, target: string, rating: int, rater: string,
                    probe: string -> bool, now: int)
    ensures !Accepts(hosted, id, target, rating, rater, probe) ==>
      Submit(hosted, id, target, rating, rater, probe, now).1 == hosted
    ensures Accepts(hosted, id, target, rating, rater, probe) ==>
      Submit(hosted, id, target, rating, rater, probe, now).1
        == hosted[id := hosted[id].(members := RateFirst(hosted[id].members, target, rater, rating), updated := now)]
  {
  }

  /** A vote from the same rater replaces its earlier vote: rating twice is rating once with the last score. */
  lemma {:induction false} SubmitLastWins(hosted: Hosted, id: string, target: string, first: int, second: int,
                                          rater: string, probe: string -> bool, t1: int, t2: int)
    requires 1 <= second <= 5
    ensures var h1 := Submit(hosted, id, target, first, rater, probe, t1).1;
      Submit(h1, id, target, second, rater, probe, t2).1 == Submit(hosted, id, target, second, rater, probe, t2).1
  {
    var h1 := Submit(hosted, id, target, first, rater, probe, t1).1;
    SubmitCases(hosted, id, target, first, rater, probe, t1);
    SubmitCases(hosted, id, target, second, rater, probe, t2);
    if Accepts(hosted, id, target, first, rater, probe) {
      var ring := hosted[id];
      var ms := ring.members;
      var i := IndexOfUrl(ms, target).value;
      var ms1 := ms[i := VoteOn(ms[i], rater, first)];
      assert RateFirst(ms, target, rater, first) == ms1;
      assert h1 == hosted[id := ring.(members := ms1, updated := t1)];
      IndexOfUrlByUrls(ms1, ms, target);
      assert Accepts(h1, id, target, second, rater, probe);
      SubmitCases(h1, id, target, second, rater, probe, t2);
      assert RateFirst(ms1, target, rater, second) == ms1[i := VoteOn(ms1[i], rater, second)];
      UpsertOverwrites(ms[i].ratings, rater, first, second);
      assert ms1[i := VoteOn(ms1[i], rater, second)] == ms[i := VoteOn(ms[i], rater, second)];
      assert RateFirst(ms1, target, rater, second) == RateFirst(ms, target, rater, second);
    }
  }

  /** Ratings keep every stored member well formed: one entry per rater, every score in 1..5. */
  lemma SubmitKeepsOk(hosted: Hosted, id: string, target: string, rating: int, rater: string,
                      probe: string -> bool, now: int)
    requires StoreOk(hosted)
    ensures StoreOk(Submit(hosted, id, target, rating, rater, probe, now).1)
  {
    if 1 <= rating <= 5 && id in hosted {
      RateFirstKeepsOk(hosted[id].members, target, rater, rating);
    }
  }

  lemma RateFirstKeepsUrls(ms: seq<Member>, target: string, rater: string, rating: int)
    ensures var r := RateFirst(ms, target, rater, rating);
      |r| == |ms| && forall j :: 0 <= j < |ms| ==> r[j].url == ms[j].url
  {
  }

  /** Rating a member of a ring changes no url, so urls stay unique across members and pending. */
  lemma {:induction false} RateKeepsUnique(ring: HostedRing, target: string, rater: string, rating: int, now: int)
    requires UniqueUrls(ring)
    ensures UniqueUrls(ring.(members := RateFirst(ring.members, target, rater, rating), updated := now))
  {
    var ms := RateFirst(ring.members, target, rater, rating);
    RateFirstKeepsUrls(ring.members, target, rater, rating);
    var a := ms + ring.pending;
    var b := ring.members + ring.pending;
    assert forall j :: 0 <= j < |a| ==> a[j].url == b[j].url;
    DistinctByUrls(a, b);
  }

  /** Submissions keep every hosted ring's urls unique. */
  lemma SubmitKeepsUnique(hosted: Hosted, id: string, target: string, rating: int, rater: string,
                          probe: string -> bool, now: int)
    ensures var after := Submit(hosted, id, target, rating, rater, probe, now).1;
      forall k :: k in hosted && UniqueUrls(hosted[k]) ==> k in after && UniqueUrls(after[k])
  {
    if id in hosted && UniqueUrls(hosted[id]) {
      RateKeepsUnique(hosted[id], target, rater, rating, now);
    }
  }

  // ---------------------------------------------------------------------------
  // The same-site entry point

  /** The POST `ajax_submit_rating` forwards to a joined ring's host. */
  datatype RateRequest = RateRequest(endpoint: string, targetUrl: string, rating: int, raterUrl: string)

  /** The host's answer: a transport error, or a status code with the error body's `message`. */
  datatype ProxyResult = ProxyError(error: string) | ProxyAnswer(code: int, message: Option<string>)

  /** `wp_send_json_success` / `wp_send_json_error`. */
  datatype AjaxReply = Success(message: string) | Failure(message: string)

  function RateUrl(host: string, ringId: string): string {
    RingUrl(host, ringId) + "/rate"
  }

  /** `ajax_submit_rating`, resolving the ring id to a hosted ring, a joined ring, or neither. */
  function LocalRate(hosted: Hosted, joined: Joined, id: string, target: string, rating: int,
                     site: Identity, proxy: RateRequest -> ProxyResult, now: int): (AjaxReply, Hosted)
  {
    if rating < 1 || rating > 5 then (Failure("Invalid rating"), hosted)
    else match Resolve(hosted, joined, id)
      case IsHosted(ring) =>
        (Success("Rating saved"),
         hosted[id := ring.(members := RateFirst(ring.members, target, site.url, rating), updated := now)])
      case IsJoined(mirror) =>
        var answer := proxy(RateRequest(RateUrl(mirror.hostUrl, mirror.ringId), target, rating, site.url));
        (match answer
         case ProxyError(e) => Failure(e)
         case ProxyAnswer(code, message) =>
           if code != 200 then Failure(message.GetOr("Rating failed")) else Success("Rating submitted"),
         hosted)
      case Unknown => (Failure("Ring not found"), hosted)
  }

  /**
   * On a hosted ring the local entry point votes as the site itself, needs no
   * ping, bumps `updated` and reports success even when no member has the target url.
   */
  lemma LocalRateHosted(hosted: Hosted, joined: Joined, id: string, target: string, rating: int,
                        site: Identity, proxy: RateRequest -> ProxyResult, now: int)
    requires 1 <= rating <= 5 && id in hosted
    ensures var (reply, after) := LocalRate(hosted, joined, id, target, rating, site, proxy, now);
      && reply == Success("Rating saved")
      && after == hosted[id := hosted[id].(members := RateFirst(hosted[id].members, target, site.url, rating), updated := now)]
      && (!HasUrl(hosted[id].members, target) ==> after[id].members == hosted[id].members && after[id].updated == now)
  {
    RateFirstChangesOne(hosted[id].members, target, site.url, rating);
  }

  /**
   * On a joined ring nothing local changes: the rating goes to the host's rate
   * endpoint with the site's own url as rater, and the host's verdict comes back.
   */
  lemma LocalRateForwards(hosted: Hosted, joined: Joined, id: string, target: string, rating: int,
                          site: Identity, proxy: RateRequest -> ProxyResult, now: int)
    requires 1 <= rating <= 5 && id !in hosted && id in joined
    ensures var (reply, after) := LocalRate(hosted, joined, id, target, rating, site, proxy, now);
      var answer := proxy(RateRequest(RateUrl(joined[id].hostUrl, joined[id].ringId), target, rating, site.url));
      && after == hosted
      && (reply.Success? <==> answer.ProxyAnswer? && answer.code == 200)
  {
  }

  /** An out-of-range score or an unknown ring id changes nothing and fails. */
  lemma LocalRateRefusals(hosted: Hosted, joined: Joined, id: string, target: string, rating: int,
                          site: Identity, proxy: RateRequest -> ProxyResult, now: int)
    ensures rating < 1 || rating > 5 ==>
      LocalRate(hosted, joined, id, target, rating, site, proxy, now) == (Failure("Invalid rating"), hosted)
    ensures 1 <= rating <= 5 && id !in hosted && id !in joined ==>
      LocalRate(hosted, joined, id, target, rating, site, proxy, now) == (Failure("Ring not found"), hosted)
  {
  }

  /** The local entry point keeps every stored member well formed. */
  lemma LocalRateKeepsOk(hosted: Hosted, joined: Joined, id: string, target: string, rating: int,
                         site: Identity, proxy: RateRequest -> ProxyResult, now: int)
    requires StoreOk(hosted)
    ensures StoreOk(LocalRate(hosted, joined, id, target, rating, site, proxy, now).1)
  {
    if 1 <= rating <= 5 && id in hosted {
      RateFirstKeepsOk(hosted[id].members, target, site.url, rating);
    }
  }

  /** The same-site rating keeps every hosted ring's urls unique. */
  lemma LocalRateKeepsUnique(hosted: Hosted, joined: Joined, id: string, target: string, rating: int,
                             site: Identity, proxy: RateRequest -> ProxyResult, now: int)
    ensures var after := LocalRate(hosted, joined, id, target, rating, site, proxy, now).1;
      forall k :: k in hosted && UniqueUrls(hosted[k]) ==> k in after && UniqueUrls(after[k])
  {
    if id in hosted && UniqueUrls(hosted[id]) {
      RateKeepsUnique(hosted[id], target, site.url, rating, now);
    }
  }
}
