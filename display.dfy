/**
 * The read side of the front end in PHP: which members a widget shows
 * (`render_widget_shortcode`), where the carousel starts
 * (`render_carousel_widget`), the average rating and its stars (`render_stars`).
 * The widget script reuses the star arithmetic.
 */
module Display {
  import opened Ratings
  import opened Ring
  import Php

  /** The dead-member filter (`array_filter` then `array_values`): order kept, dead members dropped. */
  function LiveMembers(ms: seq<Member>): (r: seq<Member>)
    ensures |r| <= |ms|
    ensures forall i :: 0 <= i < |r| ==> r[i].status == Active
    ensures forall m :: m in r <==> m in ms && m.status != Dead
  {
    if ms == [] then []
    else if ms[0].status == Dead then LiveMembers(ms[1..])
    else [ms[0]] + LiveMembers(ms[1..])
  }

  /**
   * `idx` lists, in increasing order, every position of `ms` that is not dead,
   * and `live` holds the entries at those positions: `live` is `ms` with the
   * dead entries taken out, order and repetitions kept.
   */
  ghost predicate OrderIndex(ms: seq<Member>, live: seq<Member>, idx: seq<nat>) {
    && |idx| == |live|
    && (forall k :: 0 <= k < |idx| ==> idx[k] < |ms| && ms[idx[k]].status != Dead && live[k] == ms[idx[k]])
    && (forall k, l :: 0 <= k < l < |idx| ==> idx[k] < idx[l])
    && (forall i :: 0 <= i < |ms| && ms[i].status != Dead ==> i in idx)
  }

  /** The filter keeps order and multiplicity. */
  lemma {:induction false} LiveMembersInOrder(ms: seq<Member>) returns (idx: seq<nat>)
    ensures OrderIndex(ms, LiveMembers(ms), idx)
  {
    if ms == [] {
      return [];
    }
    var rest := LiveMembersInOrder(ms[1..]);
    if ms[0].status == Dead {
      idx := ShiftUp(rest);
      SkipDeadHead(ms, LiveMembers(ms[1..]), rest);
    } else {
      idx := ZeroThenShift(rest);
      KeepLiveHead(ms, LiveMembers(ms[1..]), rest);
    }
  }

  lemma CoverShifted(ms: seq<Member>, rest: seq<nat>, i: nat)
    requires ms != [] && 1 <= i < |ms| && ms[i].status != Dead
    requires forall j :: 0 <= j < |ms[1..]| && ms[1..][j].status != Dead ==> j in rest
    ensures i in ShiftUp(rest)
  {
    assert ms[1..][i - 1] == ms[i];
    var k :| 0 <= k < |rest| && rest[k] == i - 1;
    assert ShiftUp(rest)[k] == i;
  }

  lemma SkipDeadHead(ms: seq<Member>, live: seq<Member>, rest: seq<nat>)
    requires ms != [] && ms[0].status == Dead && OrderIndex(ms[1..], live, rest)
    ensures OrderIndex(ms, live, ShiftUp(rest))
  {
    var idx := ShiftUp(rest);
    forall k | 0 <= k < |idx|
      ensures idx[k] < |ms| && ms[idx[k]].status != Dead && live[k] == ms[idx[k]]
    {
      assert ms[idx[k]] == ms[1..][rest[k]];
    }
    forall i | 0 <= i < |ms| && ms[i].status != Dead
      ensures i in idx
    {
      CoverShifted(ms, rest, i);
    }
  }

  lemma KeepLiveHead(ms: seq<Member>, live: seq<Member>, rest: seq<nat>)
    requires ms != [] && ms[0].status != Dead && OrderIndex(ms[1..], live, rest)
    ensures OrderIndex(ms, [ms[0]] + live, ZeroThenShift(rest))
  {
    var idx := ZeroThenShift(rest);
    var all := [ms[0]] + live;
    forall k | 0 <= k < |idx|
      ensures idx[k] < |ms| && ms[idx[k]].status != Dead && all[k] == ms[idx[k]]
    {
      if k > 0 {
        assert ms[idx[k]] == ms[1..][rest[k - 1]];
        assert all[k] == live[k - 1];
      }
    }
    forall i | 0 <= i < |ms| && ms[i].status != Dead
      ensures i in idx
    {
      if i == 0 {
        assert idx[0] == 0;
      } else {
        CoverShifted(ms, rest, i);
        var k :| 0 <= k < |rest| && ShiftUp(rest)[k] == i;
        assert idx[k + 1] == i;
      }
    }
  }

  function ShiftUp(s: seq<nat>): (r: seq<nat>)
    ensures |r| == |s| && forall k :: 0 <= k < |s| ==> r[k] == s[k] + 1
  {
    seq(|s|, k requires 0 <= k < |s| => s[k] + 1)
  }

  function ZeroThenShift(s: seq<nat>): (r: seq<nat>)
    requires forall k, l :: 0 <= k < l < |s| ==> s[k] < s[l]
    ensures |r| == |s| + 1 && r[0] == 0 && forall k :: 1 <= k < |r| ==> r[k] == s[k - 1] + 1
    ensures forall k, l :: 0 <= k < l < |r| ==> r[k] < r[l]
  {
    [0] + ShiftUp(s)
  }

  /** What the shortcode renders. */
  datatype WidgetView =
    | NoRingGiven
    | NotFoundOrEmpty
    | NoActiveMembers
    | Show(members: seq<Member>, ringName: string)

  function View(ms: seq<Member>, name: string): WidgetView {
    if ms == [] then NotFoundOrEmpty
    else
      var live := LiveMembers(ms);
      if live == [] then NoActiveMembers else Show(live, name)
  }

  /** `render_widget_shortcode`: the `ring` attribute looked up among hosted rings, then among joined ones. */
  function Widget(hosted: Hosted, joined: Joined, ring: string): WidgetView {
    if Php.Empty(ring) then NoRingGiven
    else match Resolve(hosted, joined, ring)
      case IsHosted(r) => View(r.members, r.name)
      case IsJoined(j) => View(j.members, j.name)
      case Unknown => NotFoundOrEmpty
  }

  /** The members of the ring an id resolves to; an unknown id has none. */
  function ResolvedMembers(r: Resolved): seq<Member> {
    match r
    case IsHosted(h) => h.members
    case IsJoined(j) => j.members
    case Unknown => []
  }

  /**
   * Which of the four outcomes the shortcode gives: the error for a missing
   * `ring` attribute exactly when it is "" or "0"; "not found or empty"
   * exactly for an unknown id or a ring without members; "no active members"
   * exactly when every member is dead; and the widget exactly when some
   * member is not dead.
   */
  lemma WidgetOutcomes(hosted: Hosted, joined: Joined, ring: string)
    ensures Widget(hosted, joined, ring) == NoRingGiven <==> Php.Empty(ring)
    ensures var r := Resolve(hosted, joined, ring);
      !Php.Empty(ring) ==>
        (Widget(hosted, joined, ring) == NotFoundOrEmpty <==>
           r.Unknown? || (r.IsHosted? && r.hosted.members == []) || (r.IsJoined? && r.mirror.members == []))
    ensures var ms := ResolvedMembers(Resolve(hosted, joined, ring));
      !Php.Empty(ring) ==>
        (Widget(hosted, joined, ring) == NoActiveMembers <==>
           ms != [] && forall m :: m in ms ==> m.status == Dead)
    ensures var ms := ResolvedMembers(Resolve(hosted, joined, ring));
      !Php.Empty(ring) ==>
        (Widget(hosted, joined, ring).Show? <==> exists m :: m in ms && m.status != Dead)
  {
    var ms := ResolvedMembers(Resolve(hosted, joined, ring));
    LiveMembersEmpty(ms);
  }

  /** No member survives the filter exactly when every member is dead. */
  lemma LiveMembersEmpty(ms: seq<Member>)
    ensures LiveMembers(ms) == [] <==> forall m :: m in ms ==> m.status == Dead
  {
    if LiveMembers(ms) != [] {
      assert LiveMembers(ms)[0] in LiveMembers(ms);
    }
  }

  /** A widget that renders shows exactly the live members of the ring the id resolves to, hosted first. */
  lemma WidgetShowsLive(hosted: Hosted, joined: Joined, ring: string)
    ensures Widget(hosted, joined, ring).Show? ==>
      && Widget(hosted, joined, ring).members != []
      && (forall m :: m in Widget(hosted, joined, ring).members ==> m.status == Active)
      && (ring in hosted ==> Widget(hosted, joined, ring).members == LiveMembers(hosted[ring].members))
      && (ring !in hosted ==> ring in joined && Widget(hosted, joined, ring).members == LiveMembers(joined[ring].members))
    ensures Widget(hosted, joined, ring) == NoActiveMembers ==>
      var r := Resolve(hosted, joined, ring);
      (r.IsHosted? && forall m :: m in r.hosted.members ==> m.status == Dead) ||
      (r.IsJoined? && forall m :: m in r.mirror.members ==> m.status == Dead)
  {
  }

  /**
   * The carousel's first member: the one after the site's own entry (the first
   * entry with the site url), or position 1 % N when the site is not listed.
   */
  function CarouselStart(ms: seq<Member>, site: string): (r: nat)
    requires ms != []
    ensures r < |ms|
    ensures HasUrl(ms, site) ==>
      var before := (r + |ms| - 1) % |ms|;
      ms[before].url == site && forall j :: 0 <= j < before ==> ms[j].url != site
    ensures !HasUrl(ms, site) ==> r == 1 % |ms|
  {
    var current := match IndexOfUrl(ms, site) case Some(i) => i case None => 0;
    StepBack(current, |ms|);
    (current + 1) % |ms|
  }

  lemma ModBelow(a: int, n: int)
    requires 0 <= a < n
    ensures a % n == a
  {
  }

  lemma ModWrap(a: int, n: int)
    requires n <= a < 2 * n
    ensures a % n == a - n
  {
  }

  /** Stepping forward with `% n` and back with `+ n - 1` returns to the start. */
  lemma StepBack(i: int, n: int)
    requires 0 <= i < n
    ensures 0 <= (i + 1) % n < n
    ensures ((i + 1) % n + n - 1) % n == i
  {
    if i + 1 < n {
      ModBelow(i + 1, n);
      ModWrap(i + n, n);
    } else {
      ModWrap(i + 1, n);
      ModBelow(n - 1, n);
    }
  }

  /** The star counts of an average `sum / count`. */
  datatype Stars = Stars(full: int, half: int, empty: int)

  /** `floor(avg)`, a half star when the fraction is at least 0.5, and the rest of the five empty. */
  function StarCounts(sum: int, count: nat): (s: Stars)
    requires count > 0
    ensures s.full * count <= sum < (s.full + 1) * count
    ensures s.half == (if 2 * (sum - s.full * count) >= count then 1 else 0)
    ensures s.full + s.half + s.empty == 5
  {
    var full := sum / count;
    var half := if 2 * (sum % count) >= count then 1 else 0;
    Stars(full, half, 5 - full - half)
  }

  /** Scores in 1..5 give an average in [1, 5]: no count is negative. */
  lemma {:induction false} StarsOfValidRatings(vs: seq<Vote>)
    requires InRange(vs) && vs != []
    ensures var s := StarCounts(Total(vs), |vs|);
      1 <= s.full <= 5 && 0 <= s.half <= 1 && 0 <= s.empty <= 4 && (s.full == 5 ==> s.half == 0)
  {
    TotalBounds(vs);
    var s := StarCounts(Total(vs), |vs|);
    var n := |vs|;
    if s.full < 1 {
      MulMono(s.full + 1, 1, n);
    }
    if s.full > 5 {
      MulMono(6, s.full, n);
    }
  }

  lemma MulMono(a: int, b: int, n: nat)
    requires a <= b
    ensures a * n <= b * n
  {
    assert b * n - a * n == (b - a) * n;
  }

  /**
   * The star glyphs the page is rendered with, character for character as
   * the plugin file holds them: each is three characters (a UTF-8 star read
   * back through another code page), U+201A U+2260 U+00EA for a filled star
   * and U+201A U+00F2 U+00DC for an empty one.
   */
  const FullGlyph: string := "\U{201A}\U{2260}\U{EA}"
  const EmptyGlyph: string := "\U{201A}\U{F2}\U{DC}"

  /** `str_repeat` on one item; a count below one gives nothing, as the script's counting loops do. */
  function Repeat<T>(x: T, n: int): (r: seq<T>)
    ensures |r| == if n <= 0 then 0 else n
    ensures forall k :: 0 <= k < |r| ==> r[k] == x
    decreases n
  {
    if n <= 0 then [] else Repeat(x, n - 1) + [x]
  }

  /** The stars in drawing order: `full` filled ones, the half star (drawn filled), then `empty` empty ones. */
  function StarBlocks<T>(s: Stars, full: T, empty: T): seq<T> {
    Repeat(full, s.full) + (if s.half != 0 then [full] else []) + Repeat(empty, s.empty)
  }

  /** The number of filled stars drawn: negative counts draw nothing. */
  function Filled(s: Stars): nat {
    (if s.full <= 0 then 0 else s.full) + (if s.half != 0 then 1 else 0)
  }

  /** Each position of the star sequence: filled below `Filled(s)`, empty from there on. */
  lemma StarBlocksAt<T>(s: Stars, full: T, empty: T)
    ensures var b := StarBlocks(s, full, empty);
      && |b| == Filled(s) + (if s.empty <= 0 then 0 else s.empty)
      && (forall k :: 0 <= k < |b| ==> b[k] == if k < Filled(s) then full else empty)
  {
    var f := Repeat(full, s.full) + (if s.half != 0 then [full] else []);
    assert |f| == Filled(s);
    assert forall k :: 0 <= k < |f| ==> f[k] == full;
    assert StarBlocks(s, full, empty) == f + Repeat(empty, s.empty);
  }

  /** The strings joined in order. */
  function Concat(bs: seq<string>): (r: string)
    decreases |bs|
  {
    if bs == [] then [] else bs[0] + Concat(bs[1..])
  }

  /** Strings of three characters each join so that the k-th one fills positions 3k, 3k+1 and 3k+2. */
  lemma {:induction false} ConcatThree(bs: seq<string>)
    requires forall k :: 0 <= k < |bs| ==> |bs[k]| == 3
    ensures |Concat(bs)| == 3 * |bs|
    ensures forall k :: 0 <= k < |bs| ==> Concat(bs)[3 * k..3 * k + 3] == bs[k]
    decreases |bs|
  {
    if bs != [] {
      var rest := bs[1..];
      ConcatThree(rest);
      var c := Concat(bs);
      assert c == bs[0] + Concat(rest);
      forall k | 0 <= k < |bs|
        ensures c[3 * k..3 * k + 3] == bs[k]
      {
        if k == 0 {
          assert c[0..3] == bs[0];
        } else {
          assert rest[k - 1] == bs[k];
          assert c[3 * k..3 * k + 3] == Concat(rest)[3 * (k - 1)..3 * (k - 1) + 3];
        }
      }
    }
  }

  /** `render_stars`: the server's glyphs for each star, joined. */
  function Glyphs(s: Stars): string {
    Concat(StarBlocks(s, FullGlyph, EmptyGlyph))
  }

  /** Every star the server draws is three characters, the k-th at positions 3k..3k+3. */
  lemma GlyphsAt(s: Stars)
    ensures var b := StarBlocks(s, FullGlyph, EmptyGlyph);
      && |Glyphs(s)| == 3 * |b|
      && (forall k :: 0 <= k < |b| ==> Glyphs(s)[3 * k..3 * k + 3] == b[k])
  {
    var b := StarBlocks(s, FullGlyph, EmptyGlyph);
    StarBlocksAt(s, FullGlyph, EmptyGlyph);
    assert forall k :: 0 <= k < |b| ==> |b[k]| == 3;
    ConcatThree(b);
  }

  /**
   * For ratings in 1..5 exactly five stars are drawn, fifteen characters in
   * all: `full + half` filled glyphs, then the empty ones.
   */
  lemma FiveGlyphs(vs: seq<Vote>)
    requires InRange(vs) && vs != []
    ensures var s := StarCounts(Total(vs), |vs|);
      var g := Glyphs(s);
      && |g| == 15
      && (forall k :: 0 <= k < 5 ==>
            g[3 * k..3 * k + 3] == if k < s.full + s.half then FullGlyph else EmptyGlyph)
  {
    var s := StarCounts(Total(vs), |vs|);
    StarsOfValidRatings(vs);
    StarBlocksAt(s, FullGlyph, EmptyGlyph);
    GlyphsAt(s);
    var b := StarBlocks(s, FullGlyph, EmptyGlyph);
    assert Filled(s) == s.full + s.half && |b| == 5;
    forall k | 0 <= k < 5
      ensures Glyphs(s)[3 * k..3 * k + 3] == if k < s.full + s.half then FullGlyph else EmptyGlyph
    {
      assert Glyphs(s)[3 * k..3 * k + 3] == b[k];
    }
  }

  /** The rating line is drawn only when the average is positive (`$avg_rating > 0`). */
  predicate ShowsRating(vs: seq<Vote>) {
    |vs| > 0 && Total(vs) > 0
  }

  /** With scores in 1..5 the rating line is drawn exactly when the member has been rated. */
  lemma RatingShownIffRated(vs: seq<Vote>)
    requires InRange(vs)
    ensures ShowsRating(vs) <==> |vs| > 0
  {
    TotalBounds(vs);
  }

  /** The visit link (`$member['page_url'] ?: $member['url']`): PHP treats "0" as empty too. */
  function VisitUrl(m: Member): (r: string)
    ensures !Php.Empty(m.pageUrl) ==> r == m.pageUrl
    ensures Php.Empty(m.pageUrl) ==> r == m.url
  {
    Php.OrElse(m.pageUrl, m.url)
  }
}
