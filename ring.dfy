/**
 * The stored records: hosted rings (authoritative member lists), joined rings
 * (local mirrors of rings hosted elsewhere) and their members, plus the lookups
 * and endpoint addresses every operation shares.
 */
module Ring {
  import opened Wrappers
  import opened Ratings
  import Php

  /** The four options of the ring-type select in the admin form. */
  datatype RingType = Open | Moderated | Private | Curated

  datatype Status = Active | Dead

  /** The site's own identity record (`get_site_info`), shared with rings it creates or joins. */
  datatype Identity = Identity(url: string, name: string, pageUrl: string, image: string, excerpt: string)

  /**
   * A member entry. Pending join requests are stored as the same record, so an
   * approval can move one to `members` unchanged.
   */
  datatype Member = Member(
    url: string, name: string, pageUrl: string, image: string, excerpt: string,
    joined: int, status: Status, fails: nat, ratings: seq<Vote>)

  datatype HostedRing = HostedRing(
    name: string, kind: RingType, secret: string,
    members: seq<Member>, pending: seq<Member>,
    created: int, updated: int)

  datatype JoinedRing = JoinedRing(
    hostUrl: string, ringId: string, name: string, secret: string,
    members: seq<Member>, lastSync: int, pending: bool)

  /** The two option values: hosted rings by id, joined rings by their derived key. */
  type Hosted = map<string, HostedRing>
  type Joined = map<string, JoinedRing>

  /** The record a join request or a curated addition creates: active, no failures, no ratings. */
  function NewMember(url: string, name: string, pageUrl: string, image: string, excerpt: string, now: int): Member
  {
    Member(url, name, Php.OrElse(pageUrl, url), image, excerpt, now, Active, 0, [])
  }

  predicate HasUrl(ms: seq<Member>, url: string) {
    exists i :: 0 <= i < |ms| && ms[i].url == url
  }

  /** The first position whose url is `url` (the foreach ... break scans). */
  function IndexOfUrl(ms: seq<Member>, url: string): (r: Option<nat>)
    ensures r.Some? ==> r.value < |ms| && ms[r.value].url == url
    ensures r.Some? ==> forall j :: 0 <= j < r.value ==> ms[j].url != url
    ensures r.None? <==> !HasUrl(ms, url)
  {
    if ms == [] then None
    else if ms[0].url == url then Some(0)
    else match IndexOfUrl(ms[1..], url)
      case None => None
      case Some(i) => Some(i + 1)
  }

  /** The scans depend on the urls alone. */
  lemma {:induction false} IndexOfUrlByUrls(a: seq<Member>, b: seq<Member>, url: string)
    requires |a| == |b| && forall j :: 0 <= j < |a| ==> a[j].url == b[j].url
    ensures IndexOfUrl(a, url) == IndexOfUrl(b, url)
    ensures HasUrl(a, url) <==> HasUrl(b, url)
  {
    if a != [] {
      IndexOfUrlByUrls(a[1..], b[1..], url);
    }
  }

  /** `unset($list[$i])` followed by `array_values`. */
  function RemoveAt(ms: seq<Member>, i: nat): (r: seq<Member>)
    requires i < |ms|
    ensures |r| == |ms| - 1
    ensures forall j :: 0 <= j < i ==> r[j] == ms[j]
    ensures forall j :: i <= j < |r| ==> r[j] == ms[j + 1]
  {
    ms[..i] + ms[i + 1..]
  }

  /** No url appears twice in a list. */
  predicate DistinctUrls(ms: seq<Member>) {
    forall i, j :: 0 <= i < |ms| && 0 <= j < |ms| && i != j ==> ms[i].url != ms[j].url
  }

  /** Distinctness depends on the urls alone. */
  lemma DistinctByUrls(a: seq<Member>, b: seq<Member>)
    requires |a| == |b| && forall j :: 0 <= j < |a| ==> a[j].url == b[j].url
    requires DistinctUrls(b)
    ensures DistinctUrls(a)
  {
  }

  /** The dedup invariant of a hosted ring: a url occurs at most once across members and pending. */
  predicate UniqueUrls(ring: HostedRing) {
    DistinctUrls(ring.members + ring.pending)
  }

  /** What the health checker and the rating checks keep true of every stored member. */
  predicate MemberOk(m: Member) {
    && (m.status == Dead ==> m.fails >= 3)
    && UniqueRaters(m.ratings)
    && InRange(m.ratings)
  }

  predicate AllOk(ms: seq<Member>) {
    forall i :: 0 <= i < |ms| ==> MemberOk(ms[i])
  }

  predicate RingOk(ring: HostedRing) {
    AllOk(ring.members) && AllOk(ring.pending)
  }

  predicate StoreOk(hosted: Hosted) {
    forall id :: id in hosted ==> RingOk(hosted[id])
  }

  /** Where a ring id resolves, hosted rings first (`ajax_submit_rating`, `render_widget_shortcode`). */
  datatype Resolved = IsHosted(hosted: HostedRing) | IsJoined(mirror: JoinedRing) | Unknown

  function Resolve(hosted: Hosted, joined: Joined, id: string): (r: Resolved)
    ensures r.IsHosted? <==> id in hosted
    ensures r.IsHosted? ==> r.hosted == hosted[id]
    ensures r.IsJoined? <==> id !in hosted && id in joined
    ensures r.IsJoined? ==> r.mirror == joined[id]
  {
    if id in hosted then IsHosted(hosted[id])
    else if id in joined then IsJoined(joined[id])
    else Unknown
  }

  /** The `WP_Error`s the REST endpoints return, one per message. */
  datatype ApiError =
    | RingNotFound | TargetNotFound
    | CuratedRing | BadInviteCode | RaterUnverified
    | MissingField | RatingOutOfRange

  /** The error code string of each error. */
  function Code(e: ApiError): string {
    match e
    case RingNotFound | TargetNotFound => "not_found"
    case CuratedRing | BadInviteCode | RaterUnverified => "forbidden"
    case MissingField | RatingOutOfRange => "invalid"
  }

  /** The HTTP status of each error. */
  function HttpStatus(e: ApiError): int {
    match e
    case RingNotFound | TargetNotFound => 404
    case CuratedRing | BadInviteCode | RaterUnverified => 403
    case MissingField | RatingOutOfRange => 400
  }

  /** A REST answer: a status body, or an error. */
  datatype Reply<+T> = Ok(value: T) | Err(error: ApiError)

  /** The REST namespace every endpoint lives under. */
  const ApiBase: string := "wp-json/nb-chain-link/v1/"

  /** The liveness endpoint of a site. */
  function PingUrl(site: string): string {
    Php.TrailingSlashIt(site) + ApiBase + "ping"
  }

  /** The snapshot endpoint of a remote ring. */
  function RingUrl(host: string, ringId: string): string {
    Php.TrailingSlashIt(host) + ApiBase + "ring/" + ringId
  }

  /**
   * The joined-ring key: `md5($host_url . $ring_id)`. The hash is treated as
   * injective, so the key is the concatenation it is taken of.
   */
  function JoinKey(host: string, ringId: string): string {
    host + ringId
  }
}
