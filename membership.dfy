/**
 * Admission and the host's list operations: the `join` endpoint
 * (`api_join_ring`) and the ring cases of `handle_admin_actions`
 * (create, approve, reject, remove, add curated, delete; join and leave on the
 * mirror side). Each operation takes the stored map and returns its answer with
 * the map it saves back.
 */
module Membership {
  import opened Wrappers
  import opened Ratings
  import opened Ring
  import Php

  /** The body of a join request. `secret` is None when the parameter is absent. */
  datatype JoinRequest = JoinRequest(
    url: string, name: string, pageUrl: string, image: string, excerpt: string,
    secret: Option<string>)

  datatype JoinStatus = Approved | Pending | AlreadyMember

  /** True when the request passes the private-ring invite check (a strict `!==` comparison). */
  predicate SecretOk(ring: HostedRing, secret: Option<string>) {
    ring.kind != Private || secret == Some(ring.secret)
  }

  function Candidate(req: JoinRequest, now: int): Member {
    NewMember(req.url, req.name, req.pageUrl, req.image, req.excerpt, now)
  }

  /** `api_join_ring`. */
  function Join(hosted: Hosted, id: string, req: JoinRequest, now: int): (Reply<JoinStatus>, Hosted)
  {
    if id !in hosted then (Err(RingNotFound), hosted)
    else
      var ring := hosted[id];
      if ring.kind == Curated then (Err(CuratedRing), hosted)
      else if !SecretOk(ring, req.secret) then (Err(BadInviteCode), hosted)
      else if Php.Empty(req.url) || Php.Empty(req.name) then (Err(MissingField), hosted)
      else if HasUrl(ring.members, req.url) then (Ok(AlreadyMember), hosted)
      else if HasUrl(ring.pending, req.url) then (Ok(Pending), hosted)
      else if ring.kind == Open then
        (Ok(Approved), hosted[id := ring.(members := ring.members + [Candidate(req, now)], updated := now)])
      else
        (Ok(Pending), hosted[id := ring.(pending := ring.pending + [Candidate(req, now)])])
  }

  /** True when every guard of `Join` lets the request through. */
  predicate Admissible(hosted: Hosted, id: string, req: JoinRequest) {
    && id in hosted
    && hosted[id].kind != Curated
    && SecretOk(hosted[id], req.secret)
    && !Php.Empty(req.url) && !Php.Empty(req.name)
  }

  /** The guards, in the order the endpoint checks them; every refusal leaves the store as it was. */
  lemma JoinRefusals(hosted: Hosted, id: string, req: JoinRequest, now: int)
    ensures Join(hosted, id, req, now).0.Err? ==> Join(hosted, id, req, now).1 == hosted
    ensures Join(hosted, id, req, now).0 == Err(RingNotFound) <==> id !in hosted
    ensures Join(hosted, id, req, now).0 == Err(CuratedRing) <==> id in hosted && hosted[id].kind == Curated
    ensures Join(hosted, id, req, now).0 == Err(BadInviteCode) <==>
      id in hosted && hosted[id].kind == Private && req.secret != Some(hosted[id].secret)
    ensures Join(hosted, id, req, now).0 == Err(MissingField) <==>
      id in hosted && hosted[id].kind != Curated && SecretOk(hosted[id], req.secret)
      && (Php.Empty(req.url) || Php.Empty(req.name))
    ensures Join(hosted, id, req, now).0.Ok? <==> Admissible(hosted, id, req)
  {
  }

  /** A url already listed gets `already_member` or `pending` back and changes nothing. */
  lemma JoinDedup(hosted: Hosted, id: string, req: JoinRequest, now: int)
    requires Admissible(hosted, id, req)
    requires HasUrl(hosted[id].members, req.url) || HasUrl(hosted[id].pending, req.url)
    ensures Join(hosted, id, req, now).1 == hosted
    ensures HasUrl(hosted[id].members, req.url) ==> Join(hosted, id, req, now).0 == Ok(AlreadyMember)
    ensures !HasUrl(hosted[id].members, req.url) ==> Join(hosted, id, req, now).0 == Ok(Pending)
  {
  }

  /** An open ring admits a new url as exactly one fresh active member and bumps `updated`. */
  lemma JoinOpen(hosted: Hosted, id: string, req: JoinRequest, now: int)
    requires Admissible(hosted, id, req) && hosted[id].kind == Open
    requires !HasUrl(hosted[id].members, req.url) && !HasUrl(hosted[id].pending, req.url)
    ensures var (reply, after) := Join(hosted, id, req, now);
      && reply == Ok(Approved)
      && after.Keys == hosted.Keys
      && (forall k :: k in hosted && k != id ==> after[k] == hosted[k])
      && after[id].members == hosted[id].members + [Candidate(req, now)]
      && after[id].pending == hosted[id].pending
      && after[id].updated == now
      && after[id] == hosted[id].(members := after[id].members, updated := now)
  {
  }

  /** The record a join creates: active, no failures, no ratings, `page_url` defaulting to `url`. */
  lemma CandidateShape(req: JoinRequest, now: int)
    ensures var m := Candidate(req, now);
      && m.url == req.url && m.name == req.name && m.joined == now
      && m.status == Active && m.fails == 0 && m.ratings == []
      && m.pageUrl == (if Php.Empty(req.pageUrl) then req.url else req.pageUrl)
  {
  }

  /** A moderated or private ring queues a new url as exactly one pending entry and never approves it. */
  lemma JoinQueues(hosted: Hosted, id: string, req: JoinRequest, now: int)
    requires Admissible(hosted, id, req) && hosted[id].kind in {Moderated, Private}
    requires !HasUrl(hosted[id].members, req.url) && !HasUrl(hosted[id].pending, req.url)
    ensures var (reply, after) := Join(hosted, id, req, now);
      && reply == Ok(Pending)
      && after == hosted[id := hosted[id].(pending := hosted[id].pending + [Candidate(req, now)])]
  {
  }

  /** Only an open ring ever answers `approved`. */
  lemma {:induction false} OnlyOpenApproves(hosted: Hosted, id: string, req: JoinRequest, now: int)
    ensures Join(hosted, id, req, now).0 == Ok(Approved) ==> id in hosted && hosted[id].kind == Open
  {
  }

  lemma HasUrlAppend(ms: seq<Member>, m: Member, url: string)
    ensures HasUrl(ms + [m], url) <==> HasUrl(ms, url) || m.url == url
  {
    if m.url == url { assert (ms + [m])[|ms|].url == url; }
    if HasUrl(ms, url) {
      var i :| 0 <= i < |ms| && ms[i].url == url;
      assert (ms + [m])[i] == ms[i];
    }
  }

  /** Sending the same join request twice: the second changes nothing and never answers `approved`. */
  lemma {:induction false} JoinTwice(hosted: Hosted, id: string, req: JoinRequest, t1: int, t2: int)
    ensures var (r1, h1) := Join(hosted, id, req, t1);
      var (r2, h2) := Join(h1, id, req, t2);
      && h2 == h1
      && (r1.Ok? ==> r2 == Ok(AlreadyMember) || r2 == Ok(Pending))
      && (r1.Err? ==> r2 == r1)
  {
    if Admissible(hosted, id, req) {
      var ring := hosted[id];
      var m := Candidate(req, t1);
      HasUrlAppend(ring.members, m, req.url);
      HasUrlAppend(ring.pending, m, req.url);
    }
  }

  // ---------------------------------------------------------------------------
  // The dedup invariant

  /** A list into which `a` embeds injectively, element for element, has distinct urls only if `a` has. */
  lemma DistinctEmbed(a: seq<Member>, b: seq<Member>, f: nat -> nat)
    requires DistinctUrls(b)
    requires forall j :: 0 <= j < |a| ==> f(j) < |b| && a[j] == b[f(j)]
    requires forall j, k :: 0 <= j < |a| && 0 <= k < |a| && j != k ==> f(j) != f(k)
    ensures DistinctUrls(a)
  {
  }

  lemma UniqueAddOne(ring: HostedRing, m: Member, toMembers: bool)
    requires UniqueUrls(ring) && !HasUrl(ring.members, m.url) && !HasUrl(ring.pending, m.url)
    ensures toMembers ==> UniqueUrls(ring.(members := ring.members + [m]))
    ensures !toMembers ==> UniqueUrls(ring.(pending := ring.pending + [m]))
  {
    var c := ring.members + ring.pending;
    assert forall j :: 0 <= j < |c| ==> c[j].url != m.url by {
      forall j | 0 <= j < |c| ensures c[j].url != m.url {
        if j < |ring.members| { assert c[j] == ring.members[j]; }
        else { assert c[j] == ring.pending[j - |ring.members|]; }
      }
    }
    var d := c + [m];
    assert DistinctUrls(d);
    if toMembers {
      var n := |ring.members|;
      var e := ring.members + [m] + ring.pending;
      DistinctEmbed(e, d, j => if j < n then j else if j == n then |c| else j - 1);
    } else {
      assert ring.members + (ring.pending + [m]) == d;
    }
  }

  /** A join keeps every url unique across members and pending. */
  lemma {:induction false} JoinKeepsUnique(hosted: Hosted, id: string, req: JoinRequest, now: int)
    ensures var after := Join(hosted, id, req, now).1;
      forall k :: k in hosted && UniqueUrls(hosted[k]) ==> UniqueUrls(after[k])
  {
    var after := Join(hosted, id, req, now).1;
    if Admissible(hosted, id, req) && UniqueUrls(hosted[id]) && !HasUrl(hosted[id].members, req.url) && !HasUrl(hosted[id].pending, req.url) {
      UniqueAddOne(hosted[id], Candidate(req, now), hosted[id].kind == Open);
    }
  }

  /** A join keeps every stored member well formed. */
  lemma JoinKeepsOk(hosted: Hosted, id: string, req: JoinRequest, now: int)
    requires StoreOk(hosted)
    ensures StoreOk(Join(hosted, id, req, now).1)
  {
  }

  // ---------------------------------------------------------------------------
  // Host-side list operations

  /** `approve_member`: the first pending entry with the url moves, as stored, to the end of `members`. */
  function Approve(hosted: Hosted, id: string, url: string, now: int): (bool, Hosted)
  {
    if id !in hosted then (false, hosted)
    else
      var ring := hosted[id];
      match IndexOfUrl(ring.pending, url)
      case None => (false, hosted)
      case Some(i) =>
        (true, hosted[id := ring.(members := ring.members + [ring.pending[i]],
                                  pending := RemoveAt(ring.pending, i),
                                  updated := now)])
  }

  /** `reject_member`: the first pending entry with the url is dropped; `updated` is not bumped. */
  function Reject(hosted: Hosted, id: string, url: string): (bool, Hosted)
  {
    if id !in hosted then (false, hosted)
    else
      var ring := hosted[id];
      match IndexOfUrl(ring.pending, url)
      case None => (false, hosted)
      case Some(i) => (true, hosted[id := ring.(pending := RemoveAt(ring.pending, i))])
  }

  /** `remove_member`: the first member with the url is dropped and `updated` bumped. */
  function Remove(hosted: Hosted, id: string, url: string, now: int): (bool, Hosted)
  {
    if id !in hosted then (false, hosted)
    else
      var ring := hosted[id];
      match IndexOfUrl(ring.members, url)
      case None => (false, hosted)
      case Some(i) => (true, hosted[id := ring.(members := RemoveAt(ring.members, i), updated := now)])
  }

  /** With no ring or no matching entry, approve, reject and remove change nothing. */
  lemma NoMatchNoChange(hosted: Hosted, id: string, url: string, now: int)
    ensures (id !in hosted || !HasUrl(hosted[id].pending, url)) ==>
      Approve(hosted, id, url, now) == (false, hosted) && Reject(hosted, id, url) == (false, hosted)
    ensures (id !in hosted || !HasUrl(hosted[id].members, url)) ==>
      Remove(hosted, id, url, now) == (false, hosted)
  {
  }

  /**
   * An approval moves exactly the first matching pending record, unchanged (its
   * `joined` stamp is the request's), to the end of `members`; the other pending
   * entries keep their order and `updated` is bumped.
   */
  lemma {:induction false} ApproveMoves(hosted: Hosted, id: string, url: string, now: int)
    requires id in hosted && HasUrl(hosted[id].pending, url)
    ensures var (found, after) := Approve(hosted, id, url, now);
      var ring := hosted[id];
      exists i :: 0 <= i < |ring.pending|
        && ring.pending[i].url == url
        && (forall j :: 0 <= j < i ==> ring.pending[j].url != url)
        && found
        && after == hosted[id := ring.(members := ring.members + [ring.pending[i]],
                                    pending := ring.pending[..i] + ring.pending[i + 1..],
                                    updated := now)]
  {
    var i := IndexOfUrl(hosted[id].pending, url).value;
    assert RemoveAt(hosted[id].pending, i) == hosted[id].pending[..i] + hosted[id].pending[i + 1..];
  }

  /** A rejection drops exactly the first matching pending entry and touches nothing else. */
  lemma {:induction false} RejectDrops(hosted: Hosted, id: string, url: string)
    requires id in hosted && HasUrl(hosted[id].pending, url)
    ensures var (found, after) := Reject(hosted, id, url);
      var ring := hosted[id];
      exists i :: 0 <= i < |ring.pending|
        && ring.pending[i].url == url
        && (forall j :: 0 <= j < i ==> ring.pending[j].url != url)
        && found
        && after == hosted[id := ring.(pending := ring.pending[..i] + ring.pending[i + 1..])]
  {
    var i := IndexOfUrl(hosted[id].pending, url).value;
    assert RemoveAt(hosted[id].pending, i) == hosted[id].pending[..i] + hosted[id].pending[i + 1..];
  }

  /** A removal drops exactly the first matching member and bumps `updated`. */
  lemma {:induction false} RemoveDrops(hosted: Hosted, id: string, url: string, now: int)
    requires id in hosted && HasUrl(hosted[id].members, url)
    ensures var (found, after) := Remove(hosted, id, url, now);
      var ring := hosted[id];
      exists i :: 0 <= i < |ring.members|
        && ring.members[i].url == url
        && (forall j :: 0 <= j < i ==> ring.members[j].url != url)
        && found
        && after == hosted[id := ring.(members := ring.members[..i] + ring.members[i + 1..], updated := now)]
  {
    var i := IndexOfUrl(hosted[id].members, url).value;
    assert RemoveAt(hosted[id].members, i) == hosted[id].members[..i] + hosted[id].members[i + 1..];
  }

  /** On a ring whose urls are unique, removing the url leaves no entry with it (reject and remove). */
  lemma {:induction false} DropIsComplete(hosted: Hosted, id: string, url: string, now: int)
    requires id in hosted && UniqueUrls(hosted[id])
    ensures var after := Reject(hosted, id, url).1; id in after && !HasUrl(after[id].pending, url)
    ensures var after := Remove(hosted, id, url, now).1; id in after && !HasUrl(after[id].members, url)
  {
    var ring := hosted[id];
    var c := ring.members + ring.pending;
    var n := |ring.members|;
    match IndexOfUrl(ring.pending, url) {
      case None =>
      case Some(i) =>
        var p := RemoveAt(ring.pending, i);
        forall j | 0 <= j < |p| ensures p[j].url != url {
          var k := if j < i then j else j + 1;
          assert p[j] == ring.pending[k] == c[n + k];
          assert ring.pending[i] == c[n + i];
        }
    }
    match IndexOfUrl(ring.members, url) {
      case None =>
      case Some(i) =>
        var q := RemoveAt(ring.members, i);
        forall j | 0 <= j < |q| ensures q[j].url != url {
          var k := if j < i then j else j + 1;
          assert q[j] == ring.members[k] == c[k];
          assert ring.members[i] == c[i];
        }
    }
  }

  /** Approve, reject and remove keep every url unique across members and pending. */
  lemma ListOpsKeepUnique(hosted: Hosted, id: string, url: string, now: int)
    requires id in hosted && UniqueUrls(hosted[id])
    ensures UniqueUrls(Approve(hosted, id, url, now).1[id])
    ensures UniqueUrls(Reject(hosted, id, url).1[id])
    ensures UniqueUrls(Remove(hosted, id, url, now).1[id])
  {
    ApproveKeepsUnique(hosted, id, url, now);
    RejectKeepsUnique(hosted, id, url);
    RemoveKeepsUnique(hosted, id, url, now);
  }

  lemma {:induction false} ApproveKeepsUnique(hosted: Hosted, id: string, url: string, now: int)
    requires id in hosted && UniqueUrls(hosted[id])
    ensures UniqueUrls(Approve(hosted, id, url, now).1[id])
  {
    var ring := hosted[id];
    var n := |ring.members|;
    match IndexOfUrl(ring.pending, url) {
      case None =>
      case Some(i) =>
        var p := RemoveAt(ring.pending, i);
        var approved := ring.members + [ring.pending[i]] + p;
        assert approved == Approve(hosted, id, url, now).1[id].members + Approve(hosted, id, url, now).1[id].pending;
        DistinctEmbed(approved, ring.members + ring.pending,
                      j => if j < n then j else if j == n then n + i else if j <= n + i then j - 1 else j);
    }
  }

  lemma {:induction false} RejectKeepsUnique(hosted: Hosted, id: string, url: string)
    requires id in hosted && UniqueUrls(hosted[id])
    ensures UniqueUrls(Reject(hosted, id, url).1[id])
  {
    var ring := hosted[id];
    var n := |ring.members|;
    match IndexOfUrl(ring.pending, url) {
      case None =>
      case Some(i) =>
        DistinctEmbed(ring.members + RemoveAt(ring.pending, i), ring.members + ring.pending,
                      j => if j < n + i then j else j + 1);
    }
  }

  lemma {:induction false} RemoveKeepsUnique(hosted: Hosted, id: string, url: string, now: int)
    requires id in hosted && UniqueUrls(hosted[id])
    ensures UniqueUrls(Remove(hosted, id, url, now).1[id])
  {
    var ring := hosted[id];
    match IndexOfUrl(ring.members, url) {
      case None =>
      case Some(i) =>
        DistinctEmbed(RemoveAt(ring.members, i) + ring.pending, ring.members + ring.pending,
                      j => if j < i then j else j + 1);
    }
  }

  /** Approve, reject and remove keep every stored member well formed. */
  lemma ListOpsKeepOk(hosted: Hosted, id: string, url: string, now: int)
    requires StoreOk(hosted)
    ensures StoreOk(Approve(hosted, id, url, now).1)
    ensures StoreOk(Reject(hosted, id, url).1)
    ensures StoreOk(Remove(hosted, id, url, now).1)
  {
    if id in hosted {
      var ring := hosted[id];
      assert RingOk(ring);
      match IndexOfUrl(ring.pending, url) {
        case None =>
        case Some(i) =>
          AllOkRemoveAt(ring.pending, i);
          assert MemberOk(ring.pending[i]);
          assert AllOk(ring.members + [ring.pending[i]]);
      }
      match IndexOfUrl(ring.members, url) {
        case None =>
        case Some(i) => AllOkRemoveAt(ring.members, i);
      }
    }
  }

  lemma AllOkRemoveAt(ms: seq<Member>, i: nat)
    requires AllOk(ms) && i < |ms|
    ensures AllOk(RemoveAt(ms, i))
  {
  }


  /** The form fields of `add_curated_member`. */
  datatype CuratedEntry = CuratedEntry(url: string, name: string, pageUrl: string, image: string, excerpt: string)

  /** `add_curated_member`: appends a fresh member whatever the ring type, without a dedup scan. */
  function AddCurated(hosted: Hosted, id: string, c: CuratedEntry, now: int): (r: Hosted)
  {
    if id !in hosted then hosted
    else
      var ring := hosted[id];
      hosted[id := ring.(members := ring.members + [NewMember(c.url, c.name, c.pageUrl, c.image, c.excerpt, now)],
                         updated := now)]
  }

  /** A curated addition appends exactly one fresh member and bumps `updated`, for every ring type. */
  lemma AddCuratedAppends(hosted: Hosted, id: string, c: CuratedEntry, now: int)
    requires id in hosted
    ensures var after := AddCurated(hosted, id, c, now);
      && after.Keys == hosted.Keys
      && after[id].members == hosted[id].members + [NewMember(c.url, c.name, c.pageUrl, c.image, c.excerpt, now)]
      && after[id].pending == hosted[id].pending
      && after[id].kind == hosted[id].kind
      && after[id].updated == now
      && forall k :: k in hosted && k != id ==> after[k] == hosted[k]
    ensures StoreOk(hosted) ==> StoreOk(AddCurated(hosted, id, c, now))
  {
  }

  /** Because it skips the dedup scan, a curated addition can list a url twice. */
  lemma AddCuratedCanDuplicate()
    ensures var m := NewMember("https://a.example", "A", "", "", "", 0);
      var h: Hosted := map["r" := HostedRing("R", Curated, "", [m], [], 0, 0)];
      UniqueUrls(h["r"]) && !UniqueUrls(AddCurated(h, "r", CuratedEntry("https://a.example", "A", "", "", ""), 1)["r"])
  {
    var m := NewMember("https://a.example", "A", "", "", "", 0);
    var h: Hosted := map["r" := HostedRing("R", Curated, "", [m], [], 0, 0)];
    var after := AddCurated(h, "r", CuratedEntry("https://a.example", "A", "", "", ""), 1)["r"];
    var c := after.members + after.pending;
    assert c[0].url == c[1].url;
  }

  /** The host's own entry in a ring it creates (`get_site_info`'s fields, stamped now). */
  function HostMember(site: Identity, now: int): Member {
    Member(site.url, site.name, site.pageUrl, site.image, site.excerpt, now, Active, 0, [])
  }

  /** `create_ring`: refused when the id exists, otherwise a ring whose only member is the host. */
  function CreateRing(hosted: Hosted, id: string, name: string, kind: RingType, secret: string,
                      site: Identity, now: int): (bool, Hosted)
  {
    if id in hosted then (false, hosted)
    else (true, hosted[id := HostedRing(name, kind, secret, [HostMember(site, now)], [], now, now)])
  }

  /** An existing id is refused unchanged; a new ring lists the host first and alone, with nothing pending. */
  lemma CreateRingShape(hosted: Hosted, id: string, name: string, kind: RingType, secret: string,
                        site: Identity, now: int)
    ensures id in hosted ==> CreateRing(hosted, id, name, kind, secret, site, now) == (false, hosted)
    ensures id !in hosted ==>
      var (ok, after) := CreateRing(hosted, id, name, kind, secret, site, now);
      && ok && after.Keys == hosted.Keys + {id}
      && (forall k :: k in hosted ==> after[k] == hosted[k])
      && |after[id].members| == 1
      && after[id].members[0] == HostMember(site, now)
      && after[id].members[0].url == site.url
      && after[id].members[0].status == Active && after[id].members[0].fails == 0
      && after[id].name == name && after[id].kind == kind && after[id].secret == secret
      && after[id].pending == []
      && after[id].created == now && after[id].updated == now
    ensures id !in hosted ==>
      var after := CreateRing(hosted, id, name, kind, secret, site, now).1;
      UniqueUrls(after[id]) && RingOk(after[id])
  {
  }

  /** `delete_ring`: the ring is forgotten (no tombstone) and every other ring kept. */
  function DeleteRing(hosted: Hosted, id: string): (r: Hosted)
    ensures r.Keys == hosted.Keys - {id}
    ensures forall k :: k in r ==> r[k] == hosted[k]
  {
    hosted - {id}
  }

  /** `leave_ring`: the mirror is forgotten and every other mirror kept. */
  function LeaveRing(joined: Joined, key: string): (r: Joined)
    ensures r.Keys == joined.Keys - {key}
    ensures forall k :: k in r ==> r[k] == joined[k]
  {
    joined - {key}
  }

  /** What the host answered to the join POST of `join_ring`. */
  datatype JoinHttp =
    | Unreachable(error: string)
    | Answer(code: int, status: Option<string>, message: Option<string>)

  /** The notice `join_ring` shows. */
  datatype JoinNotice = ConnectFailed(error: string) | JoinFailed(message: string) | Recorded(message: string)

  /** The mirror record a successful join request creates: no members yet, never synced. */
  function NewMirror(host: string, ringId: string, secret: string, status: Option<string>): JoinedRing {
    JoinedRing(host, ringId, ringId, secret, [], 0, status == Some("pending"))
  }

  /**
   * `join_ring`, up to the immediate sync that follows it: on a 200 answer the
   * mirror record is stored under its derived key, otherwise nothing is stored.
   */
  function JoinRemote(joined: Joined, host: string, ringId: string, secret: string, answer: JoinHttp): (JoinNotice, Joined)
  {
    match answer
    case Unreachable(e) => (ConnectFailed(e), joined)
    case Answer(code, status, message) =>
      if code != 200 then (JoinFailed("Join failed: " + message.GetOr("Unknown error")), joined)
      else
        (Recorded(if status == Some("approved") then "Joined!" else "Request pending approval"),
         joined[JoinKey(host, ringId) := NewMirror(host, ringId, secret, status)])
  }

  /** Only a 200 answer stores a mirror; it is empty, unsynced, named after the ring id, pending iff the host said so. */
  lemma JoinRemoteRecords(joined: Joined, host: string, ringId: string, secret: string, answer: JoinHttp)
    ensures var (notice, after) := JoinRemote(joined, host, ringId, secret, answer);
      && (notice.Recorded? <==> answer.Answer? && answer.code == 200)
      && (!notice.Recorded? ==> after == joined)
      && (notice.Recorded? ==>
            var key := JoinKey(host, ringId);
            && after.Keys == joined.Keys + {key}
            && (forall k :: k in joined && k != key ==> after[k] == joined[k])
            && after[key].members == [] && after[key].lastSync == 0
            && after[key].name == ringId && after[key].secret == secret
            && (after[key].pending <==> answer.status == Some("pending")))
    ensures var (notice, after) := JoinRemote(joined, host, ringId, secret, answer);
      && (notice.Recorded? ==> notice.message == if answer.status == Some("approved") then "Joined!" else "Request pending approval")
      && (answer.Answer? && answer.code != 200 ==> notice == JoinFailed("Join failed: " + answer.message.GetOr("Unknown error")))
      && (answer.Unreachable? ==> notice == ConnectFailed(answer.error))
  {
  }

  /** The POST `join_ring` sends: the ring's endpoint plus `/join`, with this site's identity and the invite code as its body. */
  datatype JoinPost = JoinPost(endpoint: string, body: JoinRequest)

  function JoinPostFor(site: Identity, host: string, ringId: string, secret: string): JoinPost {
    JoinPost(RingUrl(host, ringId) + "/join",
             JoinRequest(site.url, site.name, site.pageUrl, site.image, site.excerpt, Some(secret)))
  }

  /**
   * The join request goes to the ring endpoint the recorded mirror later
   * syncs from, with `/join` appended; a trailing slash on the host url does
   * not change where it goes; and the host would list this site under its own
   * url, name, image and excerpt, its page url falling back to its url.
   */
  lemma JoinPostTargetsMirror(site: Identity, host: string, ringId: string, secret: string, status: Option<string>, now: int)
    ensures var m := NewMirror(host, ringId, secret, status);
      JoinPostFor(site, host, ringId, secret).endpoint == RingUrl(m.hostUrl, m.ringId) + "/join"
    ensures JoinPostFor(site, host + "/", ringId, secret) == JoinPostFor(site, host, ringId, secret)
    ensures var c := Candidate(JoinPostFor(site, host, ringId, secret).body, now);
      && c.url == site.url && c.name == site.name && c.image == site.image && c.excerpt == site.excerpt
      && c.pageUrl == Php.OrElse(site.pageUrl, site.url)
    ensures JoinPostFor(site, host, ringId, secret).body.secret == Some(secret)
  {
    Php.TrailingSlashAbsorbs(host);
  }
}
