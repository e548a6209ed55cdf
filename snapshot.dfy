/** The ring snapshot endpoint (`api_get_ring`), which mirrors pull from. */
module Snapshot {
  import opened Wrappers
  import opened Ring

  /** The public projection of a hosted ring: no secret, no pending queue, no creation time. */
  datatype RingSnapshot = RingSnapshot(ringId: string, name: string, kind: RingType, members: seq<Member>, updated: int)

  /** `api_get_ring`. `secret` is None when the query parameter is absent (PHP null, never equal to a string). */
  function GetRing(hosted: Hosted, id: string, secret: Option<string>): Reply<RingSnapshot>
  {
    if id !in hosted then Err(RingNotFound)
    else
      var ring := hosted[id];
      if ring.kind == Private && secret != Some(ring.secret) then Err(BadInviteCode)
      else Ok(RingSnapshot(id, ring.name, ring.kind, ring.members, ring.updated))
  }

  /**
   * A known ring answers with all its members, dead ones included, unless it
   * is private and the supplied secret is absent or different.
   */
  lemma GetRingAnswers(hosted: Hosted, id: string, secret: Option<string>)
    ensures GetRing(hosted, id, secret) == Err(RingNotFound) <==> id !in hosted
    ensures GetRing(hosted, id, secret) == Err(BadInviteCode) <==>
      id in hosted && hosted[id].kind == Private && secret != Some(hosted[id].secret)
    ensures GetRing(hosted, id, secret).Ok? ==>
      var ring := hosted[id];
      GetRing(hosted, id, secret).value == RingSnapshot(id, ring.name, ring.kind, ring.members, ring.updated)
  {
  }
}
