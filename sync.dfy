/**
 * Mirror refresh (`sync_all_joined_rings`): every joined ring pulls its host's
 * snapshot and, on success, overwrites its member list wholesale. The HTTP
 * call is an input: a function from the request to its outcome.
 */
module Sync {
  import opened Wrappers
  import opened Ring
  import Php
  import Snapshot

  /** The GET a mirror sends: the snapshot endpoint, with `?secret=` only when the stored secret is non-empty. */
  datatype FetchRequest = FetchRequest(endpoint: string, secret: Option<string>)

  /** The outcome of the GET: unreachable, or a status code with the decoded body's `members` and `name`. */
  datatype FetchResult = Unreachable | Response(code: int, members: Option<seq<Member>>, name: Option<string>)

  function RequestFor(mirror: JoinedRing): FetchRequest {
    FetchRequest(RingUrl(mirror.hostUrl, mirror.ringId),
                 if Php.Empty(mirror.secret) then None else Some(mirror.secret))
  }

  /** A 200 whose body has `members`. */
  predicate Fetched(res: FetchResult) {
    res.Response? && res.code == 200 && res.members.Some?
  }

  /** One mirror after its fetch. */
  function SyncRing(mirror: JoinedRing, res: FetchResult, now: int): JoinedRing {
    if Fetched(res) then
      mirror.(members := res.members.value, name := res.name.GetOr(mirror.name), lastSync := now, pending := false)
    else mirror
  }

  /** Every mirror after one pass. */
  function SyncAll(joined: Joined, fetch: FetchRequest -> FetchResult, now: int): (r: Joined)
    ensures r.Keys == joined.Keys
  {
    map k | k in joined :: SyncRing(joined[k], fetch(RequestFor(joined[k])), now)
  }

  /**
   * A successful fetch replaces the members wholesale (nothing of the old list
   * is merged in), takes the name when the body has one, stamps `last_sync` and
   * clears `pending` whatever the host's queue says; any other outcome leaves
   * the mirror exactly as it was. The host, ring id and secret are never touched.
   */
  lemma SyncRingOutcome(mirror: JoinedRing, res: FetchResult, now: int)
    ensures var m := SyncRing(mirror, res, now);
      && m.hostUrl == mirror.hostUrl && m.ringId == mirror.ringId && m.secret == mirror.secret
      && (Fetched(res) ==>
            && m.members == res.members.value
            && m.name == (if res.name.Some? then res.name.value else mirror.name)
            && m.lastSync == now
            && !m.pending)
      && (!Fetched(res) ==> m == mirror)
  {
  }

  /** Syncing twice against the same answers is the same as syncing once. */
  lemma {:induction false} SyncIdempotent(joined: Joined, fetch: FetchRequest -> FetchResult, now: int)
    ensures SyncAll(SyncAll(joined, fetch, now), fetch, now) == SyncAll(joined, fetch, now)
  {
    var once := SyncAll(joined, fetch, now);
    var twice := SyncAll(once, fetch, now);
    forall k | k in joined ensures twice[k] == once[k] {
      var res := fetch(RequestFor(joined[k]));
      assert once[k] == SyncRing(joined[k], res, now);
      assert RequestFor(once[k]) == RequestFor(joined[k]);
      SyncRingTwice(joined[k], res, now);
    }
    assert twice.Keys == once.Keys;
  }

  lemma SyncRingTwice(mirror: JoinedRing, res: FetchResult, now: int)
    ensures SyncRing(SyncRing(mirror, res, now), res, now) == SyncRing(mirror, res, now)
  {
  }

  /** When no fetch succeeds the joined rings are left exactly as they were (and are not saved). */
  lemma SyncNothingFetched(joined: Joined, fetch: FetchRequest -> FetchResult, now: int)
    requires forall k :: k in joined ==> !Fetched(fetch(RequestFor(joined[k])))
    ensures SyncAll(joined, fetch, now) == joined
  {
  }

  /** The answer a host running this plugin gives to a mirror's GET (`api_get_ring` as JSON). */
  function Serve(host: Hosted, ringId: string, secret: Option<string>): FetchResult {
    match Snapshot.GetRing(host, ringId, secret)
    case Ok(s) => Response(200, Some(s.members), Some(s.name))
    case Err(e) => Response(HttpStatus(e), None, None)
  }

  /**
   * Against a host running this plugin, a mirror becomes a copy of the host's
   * member list and name, except for a private ring whose stored secret is
   * "" or "0": that secret is never sent, so the mirror never changes.
   */
  lemma {:induction false} MirrorFollowsHost(mirror: JoinedRing, host: Hosted, now: int)
    requires mirror.ringId in host
    ensures var ring := host[mirror.ringId];
      var m := SyncRing(mirror, Serve(host, mirror.ringId, RequestFor(mirror).secret), now);
      && (ring.kind != Private || (mirror.secret == ring.secret && !Php.Empty(ring.secret)) ==>
            m.members == ring.members && m.name == ring.name && !m.pending && m.lastSync == now)
      && (ring.kind == Private && (mirror.secret != ring.secret || Php.Empty(mirror.secret)) ==> m == mirror)
  {
    Snapshot.GetRingAnswers(host, mirror.ringId, RequestFor(mirror).secret);
  }

  /**
   * `pending` is cleared on any successful fetch, even while the host still
   * holds this site's request in its queue.
   */
  lemma PendingClearedWhileQueued(mirror: JoinedRing, host: Hosted, site: string, now: int)
    requires mirror.ringId in host && host[mirror.ringId].kind == Moderated
    requires HasUrl(host[mirror.ringId].pending, site) && !HasUrl(host[mirror.ringId].members, site)
    ensures !SyncRing(mirror, Serve(host, mirror.ringId, RequestFor(mirror).secret), now).pending
  {
    MirrorFollowsHost(mirror, host, now);
  }
}
