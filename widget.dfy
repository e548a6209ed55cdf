/**
 * The widget script (`initWidget`): previous/next navigation over the member
 * list the page embeds, the random pick that tries to avoid the site itself,
 * the rating average and its stars, and the link a member opens.
 */
module WidgetScript {
  import opened Wrappers
  import opened Ratings
  import opened Ring
  import Display

  /** JavaScript's `%`, which truncates toward zero. */
  function JsRem(a: int, n: int): (r: int)
    requires n > 0
    ensures (a - r) % n == 0
    ensures a >= 0 ==> 0 <= r < n
    ensures a < 0 ==> -n < r <= 0
  {
    RemainderFacts(a, n);
    if a >= 0 then a % n else -((-a) % n)
  }

  lemma RemainderFacts(a: int, n: int)
    requires n > 0
    ensures a >= 0 ==> (a - a % n) % n == 0
    ensures a < 0 ==> (a + (-a) % n) % n == 0
  {
    if a >= 0 {
      var q := a / n;
      assert a - a % n == q * n;
      MultipleMod(q, n);
    } else {
      var b := -a;
      var q := b / n;
      assert b - b % n == q * n;
      assert a + b % n == (-q) * n;
      MultipleMod(-q, n);
    }
  }

  lemma MultipleMod(q: int, n: int)
    requires n > 0
    ensures (q * n) % n == 0
  {
    var x := q * n;
    var d := q - x / n;
    assert x % n == n * d;
  }

  function Next(n: int, i: int): int
    requires n > 0
  {
    JsRem(i + 1, n)
  }

  function Prev(n: int, i: int): int
    requires n > 0
  {
    JsRem(i - 1 + n, n)
  }

  /** From a position of the list, next and previous stay in the list and undo each other. */
  lemma {:induction false} NavigationCycles(n: int, i: int)
    requires 0 <= i < n
    ensures 0 <= Next(n, i) < n && 0 <= Prev(n, i) < n
    ensures Next(n, i) == (if i == n - 1 then 0 else i + 1)
    ensures Prev(n, i) == (if i == 0 then n - 1 else i - 1)
    ensures Prev(n, Next(n, i)) == i && Next(n, Prev(n, i)) == i
  {
    if i == n - 1 {
      Display.ModWrap(i + 1, n);
      Display.ModBelow(n - 1, n);
    } else {
      Display.ModBelow(i + 1, n);
      Display.ModWrap(i + n, n);
    }
    if i == 0 {
      Display.ModBelow(n - 1, n);
      Display.ModWrap(n, n);
    } else {
      Display.ModWrap(i - 1 + n, n);
      Display.ModBelow(i, n);
      Display.ModWrap(i - 1 + n, n);
    }
  }

  /** The index the server embeds is the site's successor: one step back lands on the site's own entry. */
  lemma CarouselStepsBackToSite(ms: seq<Member>, site: string)
    requires ms != [] && HasUrl(ms, site)
    ensures ms[Prev(|ms|, Display.CarouselStart(ms, site))].url == site
  {
    var r := Display.CarouselStart(ms, site);
    assert r - 1 + |ms| >= 0;
  }

  /** The link a member opens (`member.page_url || member.url`): only "" counts as missing. */
  function ScriptVisitUrl(m: Member): (r: string)
    ensures m.pageUrl != "" ==> r == m.pageUrl
    ensures m.pageUrl == "" ==> r == m.url
  {
    if m.pageUrl != "" then m.pageUrl else m.url
  }

  /** The script and the server link to the same page unless `page_url` is the string "0". */
  lemma VisitUrlsAgree(m: Member)
    ensures m.pageUrl != "0" ==> ScriptVisitUrl(m) == Display.VisitUrl(m)
    ensures m.pageUrl == "0" ==> ScriptVisitUrl(m) == "0" && Display.VisitUrl(m) == m.url
  {
  }

  /**
   * The random button: a first draw, then, when there are several members,
   * up to ten redraws while the draw lands on the site itself. `draws` are the
   * successive `Math.floor(Math.random() * n)` values.
   */
  method PickRandom(ms: seq<Member>, site: string, draws: seq<nat>) returns (index: nat, used: nat)
    requires ms != []
    requires |draws| >= 11 && forall k :: 0 <= k < |draws| ==> draws[k] < |ms|
    ensures index < |ms|
    ensures 1 <= used <= 11 && index == draws[used - 1]
    ensures |ms| == 1 ==> used == 1
    ensures forall j :: 0 <= j < used - 1 ==> ms[draws[j]].url == site
    ensures |ms| > 1 && used < 11 ==> ms[index].url != site
  {
    index := draws[0];
    used := 1;
    if |ms| > 1 {
      var attempts := 0;
      while ms[index].url == site && attempts < 10
        invariant 0 <= attempts <= 10 && used == attempts + 1
        invariant index == draws[used - 1]
        invariant forall j :: 0 <= j < used - 1 ==> ms[draws[j]].url == site
      {
        index := draws[used];
        used := used + 1;
        attempts := attempts + 1;
      }
    }
  }

  /** The rating average of `updateDisplay`, as its numerator and denominator (0 / 0 when unrated). */
  method AverageRating(vs: seq<Vote>) returns (total: int, count: nat)
    ensures count == |vs|
    ensures total == Total(vs)
  {
    total := 0;
    count := 0;
    if |vs| > 0 {
      var k := 0;
      while k < |vs|
        invariant 0 <= k <= |vs|
        invariant total == Total(vs[..k])
      {
        assert vs[..k + 1][..k] == vs[..k];
        total := total + vs[k].value;
        k := k + 1;
      }
      assert vs[..|vs|] == vs;
      count := |vs|;
    }
  }

  /** The script's star glyphs: real U+2B50 and U+2606 characters, one per star. */
  const ScriptFullStar: char := '\U{2B50}'
  const ScriptEmptyStar: char := '\U{2606}'

  /** The stars `renderStars` draws: one character per star, in the server's order. */
  function ScriptStars(s: Display.Stars): string {
    Display.StarBlocks(s, ScriptFullStar, ScriptEmptyStar)
  }

  /** `renderStars`: the star counts of `render_stars`, drawn by counting loops with the script's own glyphs. */
  method RenderStars(sum: int, count: nat) returns (stars: string)
    requires count > 0
    ensures stars == ScriptStars(Display.StarCounts(sum, count))
  {
    var full := sum / count;
    var half := if 2 * (sum % count) >= count then 1 else 0;
    var empty := 5 - full - half;
    stars := [];
    var i := 0;
    while i < full
      invariant (full <= 0 && i == 0) || 0 <= i <= full
      invariant stars == Display.Repeat(ScriptFullStar, i)
    {
      stars := stars + [ScriptFullStar];
      i := i + 1;
    }
    assert stars == Display.Repeat(ScriptFullStar, full);
    if half != 0 {
      stars := stars + [ScriptFullStar];
    }
    ghost var prefix := stars;
    i := 0;
    while i < empty
      invariant (empty <= 0 && i == 0) || 0 <= i <= empty
      invariant stars == prefix + Display.Repeat(ScriptEmptyStar, i)
    {
      stars := stars + [ScriptEmptyStar];
      i := i + 1;
    }
  }

  /**
   * The script and the server draw the same stars in different glyphs: star
   * k is filled in one exactly when it is filled in the other, each server
   * star takes three characters, and the two strings differ whenever any
   * star is drawn.
   */
  lemma ScriptStarsMatchServer(s: Display.Stars)
    ensures var script := ScriptStars(s);
      var server := Display.Glyphs(s);
      && |server| == 3 * |script|
      && (forall k :: 0 <= k < |script| ==>
            (script[k] == ScriptFullStar <==> server[3 * k..3 * k + 3] == Display.FullGlyph)
            && (script[k] == ScriptEmptyStar <==> server[3 * k..3 * k + 3] == Display.EmptyGlyph))
      && (script != [] ==> script != server)
  {
    var script := ScriptStars(s);
    Display.StarBlocksAt(s, ScriptFullStar, ScriptEmptyStar);
    Display.StarBlocksAt(s, Display.FullGlyph, Display.EmptyGlyph);
    Display.GlyphsAt(s);
    var b := Display.StarBlocks(s, Display.FullGlyph, Display.EmptyGlyph);
    assert Display.FullGlyph != Display.EmptyGlyph by {
      assert Display.FullGlyph[1] != Display.EmptyGlyph[1];
    }
    assert |b| == |script|;
    forall k | 0 <= k < |script|
      ensures script[k] == ScriptFullStar <==> Display.Glyphs(s)[3 * k..3 * k + 3] == Display.FullGlyph
      ensures script[k] == ScriptEmptyStar <==> Display.Glyphs(s)[3 * k..3 * k + 3] == Display.EmptyGlyph
    {
      assert Display.Glyphs(s)[3 * k..3 * k + 3] == b[k];
    }
  }

  /** What a navigation click does: open the member's page (live mode) or show it in place. */
  datatype Action = NoAction | Navigate(url: string) | Present(member: Member)

  /** The `data-index` the page carries, through `parseInt(...) || 0`: absent means 0. */
  function InitialIndex(dataIndex: Option<int>): int {
    dataIndex.GetOr(0)
  }

  /** One widget on the page: the embedded member list and the `currentIndex` its handlers share. */
  class Carousel {
    const members: seq<Member>
    const live: bool
    var current: int

    ghost predicate Valid()
      reads this
    {
      members != [] ==> 0 <= current < |members|
    }

    /** `initWidget`; with no members it returns before binding any handler. */
    constructor (members: seq<Member>, live: bool, dataIndex: Option<int>)
      requires members != [] ==> 0 <= InitialIndex(dataIndex) < |members|
      ensures Valid()
      ensures this.members == members && this.live == live && current == InitialIndex(dataIndex)
    {
      this.members := members;
      this.live := live;
      current := InitialIndex(dataIndex);
    }

    function Land(i: int): Action
      reads this
      requires 0 <= i < |members|
    {
      if live then Navigate(ScriptVisitUrl(members[i])) else Present(members[i])
    }

    /** The previous button. */
    method ClickPrev() returns (a: Action)
      requires Valid()
      modifies this
      ensures Valid()
      ensures members == [] ==> a == NoAction && current == old(current)
      ensures members != [] ==> current == Prev(|members|, old(current)) && a == Land(current)
    {
      if members == [] {
        return NoAction;
      }
      current := (current - 1 + |members|) % |members|;
      a := Land(current);
    }

    /** The next button. */
    method ClickNext() returns (a: Action)
      requires Valid()
      modifies this
      ensures Valid()
      ensures members == [] ==> a == NoAction && current == old(current)
      ensures members != [] ==> current == Next(|members|, old(current)) && a == Land(current)
    {
      if members == [] {
        return NoAction;
      }
      current := (current + 1) % |members|;
      a := Land(current);
    }

    /** The random button opens the drawn member's page; `currentIndex` is not moved. */
    method ClickRandom(site: string, draws: seq<nat>) returns (a: Action, index: nat, used: nat)
      requires Valid()
      requires |draws| >= 11 && forall k :: 0 <= k < |draws| ==> draws[k] < |members|
      ensures used <= 11
      ensures members == [] ==> a == NoAction && used == 0
      ensures members != [] ==> index < |members| && a == Navigate(ScriptVisitUrl(members[index]))
      ensures members != [] ==> 1 <= used && index == draws[used - 1]
      ensures |members| == 1 ==> used == 1
      ensures forall j :: 0 <= j < used - 1 ==> members[draws[j]].url == site
      ensures |members| > 1 && used < 11 ==> members[index].url != site
    {
      if members == [] {
        return NoAction, 0, 0;
      }
      index, used := PickRandom(members, site, draws);
      a := Navigate(ScriptVisitUrl(members[index]));
    }
  }
}
