/**
 * One site running the plugin: the stored hosted rings, the joined-ring
 * mirrors and the site's own identity, with the REST endpoints, the cron
 * cycle and the admin actions as methods. Each method performs the scans and
 * updates the handler performs and is proved to leave the state the
 * corresponding specification function describes.
 */
module Node {
  import opened Wrappers
  import opened Ring
  import Php
  import Membership
  import RatingService
  import Health
  import Sync
  import Snapshot

  /** A `foreach ... if (url === ...) ... break` scan: the first position with the url. */
  method Scan(ms: seq<Member>, url: string) returns (r: Option<nat>)
    ensures r == IndexOfUrl(ms, url)
  {
    var k := 0;
    while k < |ms|
      invariant 0 <= k <= |ms|
      invariant forall j :: 0 <= j < k ==> ms[j].url != url
    {
      if ms[k].url == url {
        assert HasUrl(ms, url);
        return Some(k);
      }
      k := k + 1;
    }
    return None;
  }

  /** The foreach-by-reference rating loop: the first member with the target url gets the vote. */
  method RateInPlace(ms: seq<Member>, target: string, rater: string, rating: int) returns (r: seq<Member>, found: bool)
    ensures r == RatingService.RateFirst(ms, target, rater, rating)
    ensures found <==> HasUrl(ms, target)
  {
    r := ms;
    found := false;
    var k := 0;
    while k < |ms| && !found
      invariant 0 <= k <= |ms|
      invariant !found ==> r == ms && forall j :: 0 <= j < k ==> ms[j].url != target
      invariant found ==> 0 < k && IndexOfUrl(ms, target) == Some(k - 1)
                          && r == ms[k - 1 := RatingService.VoteOn(ms[k - 1], rater, rating)]
    {
      if r[k].url == target {
        assert HasUrl(ms, target);
        r := r[k := RatingService.VoteOn(r[k], rater, rating)];
        found := true;
      }
      k := k + 1;
    }
  }

  /** The hosted rings part-way through the cycle: the rings in `todo` are not yet checked. */
  function PartialCycle(store: Hosted, todo: set<string>, samples: map<string, seq<nat>>, probe: string -> bool): Hosted {
    map id | id in store :: if id in todo then store[id] else Health.CheckRing(store[id], Health.SampleOf(samples, id), probe)
  }

  lemma PartialCycleStep(store: Hosted, todo: set<string>, id: string, samples: map<string, seq<nat>>, probe: string -> bool)
    requires id in todo && id in store
    ensures PartialCycle(store, todo - {id}, samples, probe)
      == PartialCycle(store, todo, samples, probe)[id := Health.CheckRing(store[id], Health.SampleOf(samples, id), probe)]
  {
  }

  /** Some ring already visited had a member fail or recover. */
  predicate TransitionAmong(store: Hosted, done: set<string>, samples: map<string, seq<nat>>, probe: string -> bool) {
    exists id :: id in done && id in store && store[id].members != [] &&
                 Health.SampleTransitions(store[id].members, Health.SampleOf(samples, id), probe)
  }

  lemma TransitionAmongStep(store: Hosted, todo: set<string>, id: string, samples: map<string, seq<nat>>, probe: string -> bool)
    requires id in todo && todo <= store.Keys
    ensures TransitionAmong(store, store.Keys - (todo - {id}), samples, probe) <==>
      TransitionAmong(store, store.Keys - todo, samples, probe) ||
      (store[id].members != [] && Health.SampleTransitions(store[id].members, Health.SampleOf(samples, id), probe))
  {
    assert store.Keys - (todo - {id}) == (store.Keys - todo) + {id};
  }

  /** The outer foreach of the cron cycle over the hosted rings, probing each ring's sample. */
  method CheckAll(store: Hosted, samples: map<string, seq<nat>>, probe: string -> bool) returns (next: Hosted, changed: bool)
    requires Health.SamplesOk(store, samples)
    ensures next == Health.Cycle(store, samples, probe)
    ensures changed == Health.AnyTransition(store, samples, probe)
  {
    next := store;
    var todo := store.Keys;
    changed := false;
    assert PartialCycle(store, todo, samples, probe) == store;
    while todo != {}
      invariant todo <= store.Keys
      invariant next == PartialCycle(store, todo, samples, probe)
      invariant changed == TransitionAmong(store, store.Keys - todo, samples, probe)
      decreases todo
    {
      var id :| id in todo;
      var ring := store[id];
      PartialCycleStep(store, todo, id, samples, probe);
      TransitionAmongStep(store, todo, id, samples, probe);
      if ring.members != [] {
        var ms, c := Health.ProbeSampled(ring.members, samples[id], probe);
        next := next[id := ring.(members := ms)];
        changed := changed || c;
      } else {
        assert next[id := ring] == next;
      }
      todo := todo - {id};
    }
    assert next == Health.Cycle(store, samples, probe);
  }

  /** A mirror after its own fetch. */
  function Pulled(mirror: JoinedRing, fetch: Sync.FetchRequest -> Sync.FetchResult, now: int): JoinedRing {
    Sync.SyncRing(mirror, fetch(Sync.RequestFor(mirror)), now)
  }

  /** The mirror's fetch succeeded. */
  predicate PullSucceeds(mirror: JoinedRing, fetch: Sync.FetchRequest -> Sync.FetchResult) {
    Sync.Fetched(fetch(Sync.RequestFor(mirror)))
  }

  /** The mirrors part-way through the sync: the mirrors in `todo` are not yet fetched. */
  function PartialSync(store: Joined, todo: set<string>, fetch: Sync.FetchRequest -> Sync.FetchResult, now: int): Joined {
    map k | k in store :: if k in todo then store[k] else Pulled(store[k], fetch, now)
  }

  lemma PartialSyncStep(store: Joined, todo: set<string>, k: string, fetch: Sync.FetchRequest -> Sync.FetchResult, now: int)
    requires k in todo && k in store
    ensures PartialSync(store, todo - {k}, fetch, now) == PartialSync(store, todo, fetch, now)[k := Pulled(store[k], fetch, now)]
  {
  }

  /** Some mirror already visited was fetched. */
  predicate FetchedAmong(store: Joined, done: set<string>, fetch: Sync.FetchRequest -> Sync.FetchResult) {
    exists k :: k in done && k in store && PullSucceeds(store[k], fetch)
  }

  lemma FetchedAmongStep(store: Joined, todo: set<string>, k: string, fetch: Sync.FetchRequest -> Sync.FetchResult)
    requires k in todo && todo <= store.Keys
    ensures FetchedAmong(store, store.Keys - (todo - {k}), fetch) <==>
      FetchedAmong(store, store.Keys - todo, fetch) || PullSucceeds(store[k], fetch)
  {
    assert store.Keys - (todo - {k}) == (store.Keys - todo) + {k};
  }

  /** One iteration of the sync foreach: a 200 with `members` replaces the mirror's list. */
  method SyncOne(mirror: JoinedRing, res: Sync.FetchResult, now: int) returns (m: JoinedRing, fetched: bool)
    ensures m == Sync.SyncRing(mirror, res, now)
    ensures fetched == Sync.Fetched(res)
  {
    m := mirror;
    fetched := false;
    if res.Response? && res.code == 200 {
      if res.members.Some? {
        m := m.(members := res.members.value, name := res.name.GetOr(mirror.name), lastSync := now, pending := false);
        fetched := true;
      }
    }
  }

  /** The foreach of `sync_all_joined_rings` over the mirrors. */
  method FetchAll(store: Joined, fetch: Sync.FetchRequest -> Sync.FetchResult, now: int) returns (next: Joined, changed: bool)
    ensures next == Sync.SyncAll(store, fetch, now)
    ensures changed <==> exists k :: k in store && Sync.Fetched(fetch(Sync.RequestFor(store[k])))
  {
    next := store;
    var todo := store.Keys;
    changed := false;
    PartialSyncEnds(store, fetch, now);
    while todo != {}
      invariant todo <= store.Keys
      invariant next == PartialSync(store, todo, fetch, now)
      invariant changed == FetchedAmong(store, store.Keys - todo, fetch)
      decreases todo
    {
      var k :| k in todo;
      var mirror := store[k];
      var m, fetched := SyncOne(mirror, fetch(Sync.RequestFor(mirror)), now);
      PartialSyncStep(store, todo, k, fetch, now);
      FetchedAmongStep(store, todo, k, fetch);
      next := next[k := m];
      changed := changed || fetched;
      todo := todo - {k};
    }
    assert store.Keys - todo == store.Keys;
  }

  lemma PartialSyncEnds(store: Joined, fetch: Sync.FetchRequest -> Sync.FetchResult, now: int)
    ensures PartialSync(store, store.Keys, fetch, now) == store
    ensures PartialSync(store, {}, fetch, now) == Sync.SyncAll(store, fetch, now)
    ensures FetchedAmong(store, {}, fetch) == false
    ensures FetchedAmong(store, store.Keys, fetch) <==> exists k :: k in store && Sync.Fetched(fetch(Sync.RequestFor(store[k])))
  {
  }

  class ChainLink {
    /** `nb_chain_link_hosted` */
    var hosted: Hosted
    /** `nb_chain_link_joined` */
    var joined: Joined
    /** `get_site_info` */
    var site: Identity

    constructor (site: Identity)
      ensures this.hosted == map[] && this.joined == map[] && this.site == site
    {
      this.hosted := map[];
      this.joined := map[];
      this.site := site;
    }

    /** `GET /ring/{id}`: reads the store, changes nothing. */
    method ApiGetRing(id: string, secret: Option<string>) returns (reply: Reply<Snapshot.RingSnapshot>)
      ensures reply == Snapshot.GetRing(hosted, id, secret)
    {
      if id !in hosted {
        return Err(RingNotFound);
      }
      var ring := hosted[id];
      if ring.kind == Private && Some(ring.secret) != secret {
        return Err(BadInviteCode);
      }
      return Ok(Snapshot.RingSnapshot(id, ring.name, ring.kind, ring.members, ring.updated));
    }

    /** `POST /ring/{id}/join`. */
    method ApiJoinRing(id: string, req: Membership.JoinRequest, now: int) returns (reply: Reply<Membership.JoinStatus>)
      modifies this
      ensures (reply, hosted) == Membership.Join(old(hosted), id, req, now)
      ensures joined == old(joined) && site == old(site)
    {
      if id !in hosted {
        return Err(RingNotFound);
      }
      var ring := hosted[id];
      if ring.kind == Curated {
        return Err(CuratedRing);
      }
      if ring.kind == Private && Some(ring.secret) != req.secret {
        return Err(BadInviteCode);
      }
      if Php.Empty(req.url) || Php.Empty(req.name) {
        return Err(MissingField);
      }
      var i := Scan(ring.members, req.url);
      if i.Some? {
        return Ok(Membership.AlreadyMember);
      }
      i := Scan(ring.pending, req.url);
      if i.Some? {
        return Ok(Membership.Pending);
      }
      var m := NewMember(req.url, req.name, req.pageUrl, req.image, req.excerpt, now);
      if ring.kind == Open {
        hosted := hosted[id := ring.(members := ring.members + [m], updated := now)];
        return Ok(Membership.Approved);
      }
      hosted := hosted[id := ring.(pending := ring.pending + [m])];
      return Ok(Membership.Pending);
    }

    /** `POST /ring/{id}/rate`; `probe` answers the ping of the rater's site. */
    method ApiSubmitRating(id: string, target: string, rating: int, rater: string, probe: string -> bool, now: int)
      returns (reply: Reply<RatingService.Rated>)
      modifies this
      ensures (reply, hosted) == RatingService.Submit(old(hosted), id, target, rating, rater, probe, now)
      ensures joined == old(joined) && site == old(site)
    {
      if rating < 1 || rating > 5 {
        return Err(RatingOutOfRange);
      }
      if id !in hosted {
        return Err(RingNotFound);
      }
      if !probe(PingUrl(rater)) {
        return Err(RaterUnverified);
      }
      var ring := hosted[id];
      var ms, found := RateInPlace(ring.members, target, rater, rating);
      if !found {
        return Err(TargetNotFound);
      }
      hosted := hosted[id := ring.(members := ms, updated := now)];
      return Ok(RatingService.Rated);
    }

    /** The AJAX rating from a widget: rated locally as this site, forwarded to the host, or refused. */
    method AjaxSubmitRating(id: string, target: string, rating: int, proxy: RatingService.RateRequest -> RatingService.ProxyResult, now: int)
      returns (reply: RatingService.AjaxReply)
      modifies this
      ensures (reply, hosted) == RatingService.LocalRate(old(hosted), joined, id, target, rating, site, proxy, now)
      ensures joined == old(joined) && site == old(site)
    {
      if rating < 1 || rating > 5 {
        return RatingService.Failure("Invalid rating");
      }
      if id in hosted {
        var ring := hosted[id];
        var ms, _ := RateInPlace(ring.members, target, site.url, rating);
        hosted := hosted[id := ring.(members := ms, updated := now)];
        return RatingService.Success("Rating saved");
      }
      if id in joined {
        var mirror := joined[id];
        var answer := proxy(RatingService.RateRequest(RatingService.RateUrl(mirror.hostUrl, mirror.ringId), target, rating, site.url));
        match answer {
          case ProxyError(e) =>
            return RatingService.Failure(e);
          case ProxyAnswer(code, message) =>
            if code != 200 {
              return RatingService.Failure(message.GetOr("Rating failed"));
            }
            return RatingService.Success("Rating submitted");
        }
      }
      return RatingService.Failure("Ring not found");
    }

    /**
     * The cron cycle: every non-empty hosted ring probes its sample, the store
     * is saved only when some member failed or recovered, then every mirror is synced.
     */
    method RunHealthChecks(samples: map<string, seq<nat>>, probe: string -> bool,
                           fetch: Sync.FetchRequest -> Sync.FetchResult, now: int)
      returns (saved: bool)
      requires Health.SamplesOk(hosted, samples)
      modifies this
      ensures hosted == Health.Cycle(old(hosted), samples, probe)
      ensures saved == Health.AnyTransition(old(hosted), samples, probe)
      ensures joined == Sync.SyncAll(old(joined), fetch, now)
      ensures site == old(site)
    {
      var next;
      next, saved := CheckAll(hosted, samples, probe);
      Health.CycleSavesOnlyChanges(hosted, samples, probe);
      if saved {
        hosted := next;
      }
      var _ := SyncAllJoinedRings(fetch, now);
    }

    /** Every mirror fetches its host's ring; the mirrors are saved only when some fetch succeeded. */
    method SyncAllJoinedRings(fetch: Sync.FetchRequest -> Sync.FetchResult, now: int) returns (saved: bool)
      modifies this
      ensures joined == Sync.SyncAll(old(joined), fetch, now)
      ensures saved <==> exists k :: k in old(joined) && Sync.Fetched(fetch(Sync.RequestFor(old(joined)[k])))
      ensures hosted == old(hosted) && site == old(site)
    {
      var next;
      next, saved := FetchAll(joined, fetch, now);
      if saved {
        joined := next;
      } else {
        Sync.SyncNothingFetched(joined, fetch, now);
      }
    }

    /** `create_ring`, with this site as the first member. */
    method CreateRing(id: string, name: string, kind: RingType, secret: string, now: int) returns (created: bool)
      modifies this
      ensures (created, hosted) == Membership.CreateRing(old(hosted), id, name, kind, secret, site, now)
      ensures joined == old(joined) && site == old(site)
    {
      if id in hosted {
        return false;
      }
      hosted := hosted[id := HostedRing(name, kind, secret, [Membership.HostMember(site, now)], [], now, now)];
      return true;
    }

    /** `join_ring`: ask the host, record the mirror on a 200 answer, then sync every mirror at once. */
    method JoinRing(host: string, ringId: string, secret: string, answer: Membership.JoinHttp,
                    fetch: Sync.FetchRequest -> Sync.FetchResult, now: int)
      returns (notice: Membership.JoinNotice)
      modifies this
      ensures var (n, recorded) := Membership.JoinRemote(old(joined), host, ringId, secret, answer);
        notice == n && joined == if n.Recorded? then Sync.SyncAll(recorded, fetch, now) else old(joined)
      ensures hosted == old(hosted) && site == old(site)
    {
      var outcome := Membership.JoinRemote(joined, host, ringId, secret, answer);
      notice := outcome.0;
      if notice.Recorded? {
        joined := outcome.1;
        var _ := SyncAllJoinedRings(fetch, now);
      }
    }

    /** `approve_member`. */
    method ApproveMember(id: string, url: string, now: int) returns (approved: bool)
      modifies this
      ensures (approved, hosted) == Membership.Approve(old(hosted), id, url, now)
      ensures joined == old(joined) && site == old(site)
    {
      if id !in hosted {
        return false;
      }
      var ring := hosted[id];
      var i := Scan(ring.pending, url);
      if i.None? {
        return false;
      }
      var p := ring.pending[i.value];
      hosted := hosted[id := ring.(members := ring.members + [p], pending := RemoveAt(ring.pending, i.value), updated := now)];
      return true;
    }

    /** `reject_member`. */
    method RejectMember(id: string, url: string) returns (rejected: bool)
      modifies this
      ensures (rejected, hosted) == Membership.Reject(old(hosted), id, url)
      ensures joined == old(joined) && site == old(site)
    {
      if id !in hosted {
        return false;
      }
      var ring := hosted[id];
      var i := Scan(ring.pending, url);
      if i.None? {
        return false;
      }
      hosted := hosted[id := ring.(pending := RemoveAt(ring.pending, i.value))];
      return true;
    }

    /** `remove_member`. */
    method RemoveMember(id: string, url: string, now: int) returns (removed: bool)
      modifies this
      ensures (removed, hosted) == Membership.Remove(old(hosted), id, url, now)
      ensures joined == old(joined) && site == old(site)
    {
      if id !in hosted {
        return false;
      }
      var ring := hosted[id];
      var i := Scan(ring.members, url);
      if i.None? {
        return false;
      }
      hosted := hosted[id := ring.(members := RemoveAt(ring.members, i.value), updated := now)];
      return true;
    }

    /** `delete_ring`. */
    method DeleteRing(id: string) returns (deleted: bool)
      modifies this
      ensures deleted == (id in old(hosted))
      ensures hosted == Membership.DeleteRing(old(hosted), id)
      ensures joined == old(joined) && site == old(site)
    {
      deleted := id in hosted;
      if deleted {
        hosted := hosted - {id};
      }
    }

    /** `leave_ring`. */
    method LeaveRing(key: string) returns (left: bool)
      modifies this
      ensures left == (key in old(joined))
      ensures joined == Membership.LeaveRing(old(joined), key)
      ensures hosted == old(hosted) && site == old(site)
    {
      left := key in joined;
      if left {
        joined := joined - {key};
      }
    }

    /** `add_curated_member`. */
    method AddCuratedMember(id: string, c: Membership.CuratedEntry, now: int) returns (added: bool)
      modifies this
      ensures added == (id in old(hosted))
      ensures hosted == Membership.AddCurated(old(hosted), id, c, now)
      ensures joined == old(joined) && site == old(site)
    {
      added := id in hosted;
      if added {
        var ring := hosted[id];
        hosted := hosted[id := ring.(members := ring.members + [NewMember(c.url, c.name, c.pageUrl, c.image, c.excerpt, now)],
                                     updated := now)];
      }
    }
  }
}
