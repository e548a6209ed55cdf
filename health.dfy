/**
 * The hourly health check (`run_health_checks`): up to three members of every
 * non-empty hosted ring are pinged, and each member follows a small
 * failure/recovery state machine. The random sample (`array_rand`) and the
 * ping outcomes are inputs.
 */
module Health {
  import opened Ratings
  import opened Ring

  function Min3(n: nat): nat {
    if n < 3 then n else 3
  }

  /** What `array_rand($members, min(3, N))` yields: min(3, N) distinct positions of the list. */
  predicate ValidSample(sample: seq<nat>, n: nat) {
    && |sample| == Min3(n)
    && (forall k :: 0 <= k < |sample| ==> sample[k] < n)
    && (forall a, b :: 0 <= a < b < |sample| ==> sample[a] != sample[b])
  }

  /** The ping of a member succeeded (a 200 from its liveness endpoint). */
  predicate Alive(m: Member, probe: string -> bool) {
    probe(PingUrl(m.url))
  }

  /** One probed member: a failure counts up and kills at three; a success on an unhealthy member resets it. */
  function ProbeStep(m: Member, ok: bool): Member {
    if !ok then
      m.(fails := m.fails + 1, status := if m.fails + 1 >= 3 then Dead else m.status)
    else if m.status == Dead || m.fails > 0 then
      m.(fails := 0, status := Active)
    else
      m
  }

  /** The probe sets `$changed`: every failure, and every recovery. */
  predicate Transitions(m: Member, ok: bool) {
    !ok || m.status == Dead || m.fails > 0
  }

  /** A failed probe adds one failure, and the member is dead from the third on. */
  lemma ProbeFailure(m: Member)
    ensures ProbeStep(m, false).fails == m.fails + 1
    ensures ProbeStep(m, false).status == Dead <==> m.fails + 1 >= 3 || m.status == Dead
    ensures ProbeStep(m, false) == m.(fails := m.fails + 1, status := ProbeStep(m, false).status)
  {
  }

  /** A successful probe fully clears failures at once (no gradual decay) and reactivates the member. */
  lemma ProbeSuccess(m: Member)
    ensures ProbeStep(m, true) == m.(fails := 0, status := Active)
  {
  }

  /** A probe changes the member exactly when it sets `$changed`. */
  lemma ProbeChangesIffTransition(m: Member, ok: bool)
    ensures ProbeStep(m, ok) != m <==> Transitions(m, ok)
  {
  }

  /** Hysteresis: a healthy member survives two failures, dies at the third, and one success revives it. */
  lemma ThreeStrikes(m: Member)
    requires m.status == Active && m.fails == 0
    ensures ProbeStep(m, false).status == Active
    ensures ProbeStep(ProbeStep(m, false), false).status == Active
    ensures ProbeStep(ProbeStep(ProbeStep(m, false), false), false).status == Dead
    ensures ProbeStep(ProbeStep(ProbeStep(ProbeStep(m, false), false), false), true) == m
  {
  }

  /** A probe keeps a member well formed: dead only with three or more failures. */
  lemma ProbeKeepsOk(m: Member, ok: bool)
    requires MemberOk(m)
    ensures MemberOk(ProbeStep(m, ok))
  {
  }

  /** The members after the sampled positions have been probed; the others are untouched. */
  function CheckMembers(ms: seq<Member>, sample: seq<nat>, probe: string -> bool): (r: seq<Member>)
    ensures |r| == |ms|
  {
    seq(|ms|, i requires 0 <= i < |ms| => if i in sample then ProbeStep(ms[i], Alive(ms[i], probe)) else ms[i])
  }

  /** Some sampled member fails or recovers. */
  predicate SampleTransitions(ms: seq<Member>, sample: seq<nat>, probe: string -> bool) {
    exists k :: 0 <= k < |sample| && sample[k] < |ms| && Transitions(ms[sample[k]], Alive(ms[sample[k]], probe))
  }

  /** A ring with no members is skipped. */
  function CheckRing(ring: HostedRing, sample: seq<nat>, probe: string -> bool): HostedRing {
    if ring.members == [] then ring else ring.(members := CheckMembers(ring.members, sample, probe))
  }

  function SampleOf(samples: map<string, seq<nat>>, id: string): seq<nat> {
    if id in samples then samples[id] else []
  }

  /** One sample per non-empty hosted ring. */
  predicate SamplesOk(hosted: Hosted, samples: map<string, seq<nat>>) {
    forall id :: id in hosted && hosted[id].members != [] ==>
      id in samples && ValidSample(samples[id], |hosted[id].members|)
  }

  /** Every hosted ring after one cycle. */
  function Cycle(hosted: Hosted, samples: map<string, seq<nat>>, probe: string -> bool): (r: Hosted)
    ensures r.Keys == hosted.Keys
  {
    map id | id in hosted :: CheckRing(hosted[id], SampleOf(samples, id), probe)
  }

  /** Some ring has a member that fails or recovers, so the cycle saves. */
  predicate AnyTransition(hosted: Hosted, samples: map<string, seq<nat>>, probe: string -> bool) {
    exists id :: id in hosted && hosted[id].members != [] && SampleTransitions(hosted[id].members, SampleOf(samples, id), probe)
  }

  /** Only sampled positions can change, and a sample holds at most min(3, N) positions. */
  lemma {:induction false} CheckTouchesSampleOnly(ms: seq<Member>, sample: seq<nat>, probe: string -> bool)
    requires ValidSample(sample, |ms|)
    ensures forall i :: 0 <= i < |ms| && i !in sample ==> CheckMembers(ms, sample, probe)[i] == ms[i]
    ensures var r := CheckMembers(ms, sample, probe);
      |set i | 0 <= i < |ms| && r[i] != ms[i]| <= Min3(|ms|)
  {
    var r := CheckMembers(ms, sample, probe);
    var changed := set i | 0 <= i < |ms| && r[i] != ms[i];
    assert changed <= ElementsOf(sample);
    SubsetCard(changed, ElementsOf(sample));
    ElementsCard(sample);
  }

  function ElementsOf(s: seq<nat>): set<nat> {
    set k | k in s
  }

  lemma {:induction false} ElementsCard(s: seq<nat>)
    ensures |ElementsOf(s)| <= |s|
  {
    if s != [] {
      ElementsCard(s[1..]);
      assert ElementsOf(s) == ElementsOf(s[1..]) + {s[0]};
    }
  }

  lemma SubsetCard(a: set<nat>, b: set<nat>)
    requires a <= b
    ensures |a| <= |b|
  {
    assert b == a + (b - a);
  }

  /** A ring changes exactly when one of its sampled members fails or recovers. */
  lemma {:induction false} RingChangesIffTransition(ms: seq<Member>, sample: seq<nat>, probe: string -> bool)
    requires ValidSample(sample, |ms|)
    ensures CheckMembers(ms, sample, probe) != ms <==> SampleTransitions(ms, sample, probe)
  {
    var r := CheckMembers(ms, sample, probe);
    if SampleTransitions(ms, sample, probe) {
      var k :| 0 <= k < |sample| && sample[k] < |ms| && Transitions(ms[sample[k]], Alive(ms[sample[k]], probe));
      ProbeChangesIffTransition(ms[sample[k]], Alive(ms[sample[k]], probe));
      assert r[sample[k]] != ms[sample[k]];
    }
    if r != ms {
      var i :| 0 <= i < |ms| && r[i] != ms[i];
      var k :| 0 <= k < |sample| && sample[k] == i;
      ProbeChangesIffTransition(ms[i], Alive(ms[i], probe));
    }
  }

  /** A cycle without a failure or a recovery leaves the stored rings exactly as they were, and one with such a change does not. */
  lemma {:induction false} CycleSavesOnlyChanges(hosted: Hosted, samples: map<string, seq<nat>>, probe: string -> bool)
    requires SamplesOk(hosted, samples)
    ensures Cycle(hosted, samples, probe) == hosted <==> !AnyTransition(hosted, samples, probe)
  {
    var after := Cycle(hosted, samples, probe);
    if AnyTransition(hosted, samples, probe) {
      var id :| id in hosted && hosted[id].members != [] && SampleTransitions(hosted[id].members, SampleOf(samples, id), probe);
      RingChangesIffTransition(hosted[id].members, SampleOf(samples, id), probe);
      assert after[id].members != hosted[id].members;
    } else {
      forall id | id in hosted ensures after[id] == hosted[id] {
        if hosted[id].members != [] {
          RingChangesIffTransition(hosted[id].members, SampleOf(samples, id), probe);
        }
      }
    }
  }

  /** Health checks touch nothing but members' `status` and `fails`: urls, ratings, pending and timestamps stay. */
  lemma CycleChangesHealthOnly(hosted: Hosted, samples: map<string, seq<nat>>, probe: string -> bool, id: string, i: nat)
    requires id in hosted && i < |hosted[id].members|
    ensures var ring := Cycle(hosted, samples, probe)[id];
      && ring == hosted[id].(members := ring.members)
      && |ring.members| == |hosted[id].members|
      && ring.members[i] == hosted[id].members[i].(status := ring.members[i].status, fails := ring.members[i].fails)
  {
  }

  /** Health checks keep the dedup invariant and every member well formed. */
  lemma {:induction false} CycleKeepsInvariants(hosted: Hosted, samples: map<string, seq<nat>>, probe: string -> bool)
    ensures forall id :: id in hosted && UniqueUrls(hosted[id]) ==> UniqueUrls(Cycle(hosted, samples, probe)[id])
    ensures StoreOk(hosted) ==> StoreOk(Cycle(hosted, samples, probe))
  {
    var after := Cycle(hosted, samples, probe);
    forall id | id in hosted
      ensures UniqueUrls(hosted[id]) ==> UniqueUrls(after[id])
      ensures RingOk(hosted[id]) ==> RingOk(after[id])
    {
      CheckRingKeepsInvariants(hosted[id], SampleOf(samples, id), probe);
    }
  }

  lemma {:induction false} CheckRingKeepsInvariants(ring: HostedRing, sample: seq<nat>, probe: string -> bool)
    ensures UniqueUrls(ring) ==> UniqueUrls(CheckRing(ring, sample, probe))
    ensures RingOk(ring) ==> RingOk(CheckRing(ring, sample, probe))
  {
    var after := CheckRing(ring, sample, probe);
    var a := after.members + after.pending;
    var b := ring.members + ring.pending;
    assert |a| == |b|;
    assert forall j :: 0 <= j < |a| ==> a[j].url == b[j].url;
    if RingOk(ring) {
      var ms := ring.members;
      forall i | 0 <= i < |ms| ensures MemberOk(after.members[i]) {
        assert MemberOk(ms[i]);
        ProbeKeepsOk(ms[i], Alive(ms[i], probe));
      }
    }
  }


  /** One iteration of the inner foreach: ping the member and update its counters. */
  method ProbeOne(m: Member, probe: string -> bool) returns (r: Member, changed: bool)
    ensures r == ProbeStep(m, Alive(m, probe))
    ensures changed == Transitions(m, Alive(m, probe))
  {
    r := m;
    changed := false;
    if !probe(PingUrl(m.url)) {
      r := r.(fails := r.fails + 1);
      if r.fails >= 3 {
        r := r.(status := Dead);
      }
      changed := true;
    } else if r.status == Dead || r.fails > 0 {
      r := r.(fails := 0, status := Active);
      changed := true;
    }
  }

  /** Probing one more, not yet visited, position extends the checked members by that one member. */
  lemma CheckMembersSnoc(ms: seq<Member>, s: seq<nat>, i: nat, probe: string -> bool)
    requires i < |ms| && i !in s
    ensures CheckMembers(ms, s + [i], probe) == CheckMembers(ms, s, probe)[i := ProbeStep(ms[i], Alive(ms[i], probe))]
  {
  }

  lemma SampleTransitionsSnoc(ms: seq<Member>, s: seq<nat>, i: nat, probe: string -> bool)
    requires i < |ms|
    ensures SampleTransitions(ms, s + [i], probe) <==> SampleTransitions(ms, s, probe) || Transitions(ms[i], Alive(ms[i], probe))
  {
    var t := s + [i];
    assert t[|s|] == i;
    if SampleTransitions(ms, t, probe) && !Transitions(ms[i], Alive(ms[i], probe)) {
      var k :| 0 <= k < |t| && t[k] < |ms| && Transitions(ms[t[k]], Alive(ms[t[k]], probe));
      assert k != |s|;
      assert t[k] == s[k];
    }
    if SampleTransitions(ms, s, probe) {
      var k :| 0 <= k < |s| && s[k] < |ms| && Transitions(ms[s[k]], Alive(ms[s[k]], probe));
      assert t[k] == s[k];
    }
  }

  /** The inner foreach: probes the sampled positions one after another, updating each member in place. */
  method ProbeSampled(ms: seq<Member>, sample: seq<nat>, probe: string -> bool) returns (r: seq<Member>, changed: bool)
    requires ValidSample(sample, |ms|)
    ensures r == CheckMembers(ms, sample, probe)
    ensures changed == SampleTransitions(ms, sample, probe)
  {
    r := ms;
    changed := false;
    assert CheckMembers(ms, [], probe) == ms;
    for k := 0 to |sample|
      invariant r == CheckMembers(ms, sample[..k], probe)
      invariant changed == SampleTransitions(ms, sample[..k], probe)
    {
      var i := sample[k];
      assert i !in sample[..k];
      assert r[i] == ms[i];
      var m, c := ProbeOne(r[i], probe);
      assert sample[..k + 1] == sample[..k] + [i];
      CheckMembersSnoc(ms, sample[..k], i, probe);
      SampleTransitionsSnoc(ms, sample[..k], i, probe);
      changed := changed || c;
      r := r[i := m];
    }
    assert sample[..|sample|] == sample;
  }
}
