/**
 * The admin form script: the ring id suggested from the ring name, the
 * `manual` flag that stops the suggestion once the id has been typed by hand,
 * and the invite-code row shown only for private rings.
 */
module AdminScript {
  import opened Ring

  /** U+0130, LATIN CAPITAL LETTER I WITH DOT ABOVE: the one capital whose lower case is two characters. */
  const DottedCapitalI: char := '\U{130}'

  /** U+212A, KELVIN SIGN, whose lower case is the ASCII letter 'k'. */
  const KelvinSign: char := '\U{212A}'

  /**
   * `toLowerCase` on one character whose lower case is one character: ASCII
   * capitals and the Kelvin sign become ASCII small letters; every other
   * character is kept.
   */
  function Lower(c: char): char {
    if 'A' <= c <= 'Z' then (c as int + 32) as char
    else if c == KelvinSign then 'k'
    else c
  }

  /** `toLowerCase` on one character: U+0130 becomes "i" and a combining dot above (U+0307). */
  function LowerChar(c: char): string {
    if c == DottedCapitalI then "i\U{307}" else [Lower(c)]
  }

  /** The characters JavaScript's `\s` matches. */
  predicate IsSpace(c: char) {
    || c == '\t' || c == '\n' || c == '\U{B}' || c == '\U{C}' || c == '\r' || c == ' '
    || c == '\U{A0}' || c == '\U{1680}' || ('\U{2000}' <= c <= '\U{200A}')
    || c == '\U{2028}' || c == '\U{2029}' || c == '\U{202F}' || c == '\U{205F}'
    || c == '\U{3000}' || c == '\U{FEFF}'
  }

  /** The characters a ring id is made of: `[a-z0-9-]`. */
  predicate IsIdChar(c: char) {
    ('a' <= c <= 'z') || ('0' <= c <= '9') || c == '-'
  }

  /** What `.replace(/[^a-z0-9\s-]/g, '')` keeps. */
  predicate Kept(c: char) {
    IsIdChar(c) || IsSpace(c)
  }

  /** `toLowerCase`: each character's lower case, in order. */
  function LowerAll(s: string): (r: string)
    ensures forall k :: 0 <= k < |r| ==> !('A' <= r[k] <= 'Z')
    ensures |r| >= |s|
    ensures (forall k :: 0 <= k < |s| ==> s[k] != DottedCapitalI) ==>
      |r| == |s| && forall k :: 0 <= k < |s| ==> r[k] == Lower(s[k])
  {
    if s == [] then [] else LowerChar(s[0]) + LowerAll(s[1..])
  }

  /** Lower-casing works character by character, so it distributes over concatenation. */
  lemma {:induction false} LowerAllAppend(a: string, b: string)
    ensures LowerAll(a + b) == LowerAll(a) + LowerAll(b)
    decreases |a|
  {
    if a == [] {
      assert a + b == b;
    } else {
      assert (a + b)[0] == a[0] && (a + b)[1..] == a[1..] + b;
      LowerAllAppend(a[1..], b);
      assert LowerAll(a + b) == LowerChar(a[0]) + LowerAll(a[1..] + b);
    }
  }

  /** `.replace(/[^a-z0-9\s-]/g, '')`. */
  function StripDisallowed(s: string): (r: string)
    ensures forall k :: 0 <= k < |r| ==> Kept(r[k])
    ensures |r| <= |s|
  {
    if s == [] then []
    else if Kept(s[0]) then [s[0]] + StripDisallowed(s[1..])
    else StripDisallowed(s[1..])
  }

  /** The input after its leading run of whitespace. */
  function SkipSpaces(s: string): (r: string)
    ensures |r| <= |s|
    ensures r == [] || !IsSpace(r[0])
  {
    if s != [] && IsSpace(s[0]) then SkipSpaces(s[1..]) else s
  }

  /** `.replace(/\s+/g, '-')`: every maximal run of whitespace becomes one '-'. */
  function CollapseSpaces(s: string): (r: string)
    ensures forall k :: 0 <= k < |r| ==> !IsSpace(r[k])
    ensures |r| <= |s|
    ensures (forall k :: 0 <= k < |s| ==> !IsSpace(s[k])) ==> r == s
    decreases |s|
  {
    if s == [] then []
    else if IsSpace(s[0]) then ['-'] + CollapseSpaces(SkipSpaces(s))
    else [s[0]] + CollapseSpaces(s[1..])
  }

  /** The filter decides character by character, so it distributes over concatenation. */
  lemma {:induction false} StripAppend(a: string, b: string)
    ensures StripDisallowed(a + b) == StripDisallowed(a) + StripDisallowed(b)
    decreases |a|
  {
    if a == [] {
      assert a + b == b;
    } else {
      assert (a + b)[0] == a[0] && (a + b)[1..] == a[1..] + b;
      StripAppend(a[1..], b);
    }
  }

  /** One character survives the filter exactly when it is in `[a-z0-9\s-]`. */
  lemma StripOne(c: char)
    ensures StripDisallowed([c]) == if Kept(c) then [c] else []
  {
    assert [c][1..] == [];
  }

  /**
   * What `.replace(/\s+/g, '-')` writes for position k: the character itself
   * when it is not whitespace, '-' when it starts a run of whitespace, and
   * nothing for the rest of a run.
   */
  function CollapsedAt(s: string, k: nat): string
    requires k < |s|
  {
    if !IsSpace(s[k]) then [s[k]]
    else if k == 0 || !IsSpace(s[k - 1]) then "-"
    else ""
  }

  /** The pieces `CollapsedAt` gives for positions k, k+1, ... of s, joined. */
  function CollapseFrom(s: string, k: nat): string
    requires k <= |s|
    decreases |s| - k
  {
    if k == |s| then [] else CollapsedAt(s, k) + CollapseFrom(s, k + 1)
  }

  /** Relates the pieces from position k to `CollapseSpaces` of the rest of the input. */
  lemma {:induction false} CollapseFromSuffix(s: string, k: nat)
    requires k <= |s|
    ensures (k == 0 || !IsSpace(s[k - 1])) ==> CollapseFrom(s, k) == CollapseSpaces(s[k..])
    ensures (k > 0 && IsSpace(s[k - 1])) ==> CollapseFrom(s, k) == CollapseSpaces(SkipSpaces(s[k..]))
    decreases |s| - k
  {
    if k < |s| {
      CollapseFromSuffix(s, k + 1);
      CollapseAt(s, k);
      if IsSpace(s[k]) {
        assert CollapseFrom(s, k + 1) == CollapseSpaces(SkipSpaces(s[k + 1..]));
      } else {
        assert CollapseFrom(s, k + 1) == CollapseSpaces(s[k + 1..]);
      }
    }
  }

  /** One step of `CollapseSpaces` and `SkipSpaces` on the input from position k. */
  lemma CollapseAt(s: string, k: nat)
    requires k < |s|
    ensures IsSpace(s[k]) ==>
      (SkipSpaces(s[k..]) == SkipSpaces(s[k + 1..]) && CollapseSpaces(s[k..]) == "-" + CollapseSpaces(SkipSpaces(s[k + 1..])))
    ensures !IsSpace(s[k]) ==>
      (SkipSpaces(s[k..]) == s[k..] && CollapseSpaces(s[k..]) == [s[k]] + CollapseSpaces(s[k + 1..]))
  {
    var t := s[k..];
    assert t[0] == s[k] && t[1..] == s[k + 1..];
  }

  /** `CollapseSpaces` agrees with the position-by-position reading of the replacement. */
  lemma CollapseSpacesPointwise(s: string)
    ensures CollapseSpaces(s) == CollapseFrom(s, 0)
  {
    CollapseFromSuffix(s, 0);
    assert s[0..] == s;
  }

  /** `.substring(0, n)`. */
  function Prefix(s: string, n: nat): (r: string)
    ensures |r| == if |s| <= n then |s| else n
    ensures r == s[..|r|]
  {
    if |s| <= n then s else s[..n]
  }

  const MaxIdLength: nat := 30

  /** The ring id suggested for a ring name. */
  function Slug(name: string): string {
    Prefix(CollapseSpaces(StripDisallowed(LowerAll(name))), MaxIdLength)
  }

  lemma {:induction false} CollapseKeepsIdChars(s: string)
    requires forall k :: 0 <= k < |s| ==> Kept(s[k])
    ensures forall k :: 0 <= k < |CollapseSpaces(s)| ==> IsIdChar(CollapseSpaces(s)[k])
    decreases |s|
  {
    if s != [] {
      if IsSpace(s[0]) {
        var t := SkipSpaces(s);
        SkipIsSuffix(s);
        CollapseKeepsIdChars(t);
      } else {
        CollapseKeepsIdChars(s[1..]);
      }
    }
  }

  lemma {:induction false} SkipIsSuffix(s: string)
    ensures exists k :: 0 <= k <= |s| && SkipSpaces(s) == s[k..]
  {
    if s != [] && IsSpace(s[0]) {
      SkipIsSuffix(s[1..]);
      var k :| 0 <= k <= |s[1..]| && SkipSpaces(s[1..]) == s[1..][k..];
      assert s[1..][k..] == s[k + 1..];
    } else {
      assert s == s[0..];
    }
  }

  /** A generated id has only the characters `[a-z0-9-]`, hence no whitespace. */
  lemma SlugCharacters(name: string)
    ensures forall k :: 0 <= k < |Slug(name)| ==> IsIdChar(Slug(name)[k]) && !IsSpace(Slug(name)[k])
  {
    CollapseKeepsIdChars(StripDisallowed(LowerAll(name)));
  }

  /** A generated id is at most 30 characters long. */
  lemma SlugLength(name: string)
    ensures |Slug(name)| <= MaxIdLength
  {
  }

  predicate AllIdChars(s: string) {
    forall k :: 0 <= k < |s| ==> IsIdChar(s[k])
  }

  lemma IdCharsSurvive(s: string)
    requires AllIdChars(s)
    ensures LowerAll(s) == s
    ensures StripDisallowed(s) == s
    ensures CollapseSpaces(s) == s
  {
    assert forall k :: 0 <= k < |s| ==> s[k] != DottedCapitalI && Lower(s[k]) == s[k] && Kept(s[k]) && !IsSpace(s[k]);
    KeptSurvive(s);
  }

  lemma {:induction false} KeptSurvive(s: string)
    requires forall k :: 0 <= k < |s| ==> Kept(s[k])
    ensures StripDisallowed(s) == s
  {
    if s != [] {
      KeptSurvive(s[1..]);
    }
  }

  /** Slugging a generated id returns it unchanged: each of its characters survives every step. */
  lemma SlugIdempotent(name: string)
    ensures Slug(Slug(name)) == Slug(name)
  {
    var id := Slug(name);
    SlugCharacters(name);
    IdCharsSurvive(id);
  }

  /**
   * The two non-ASCII capitals whose lower case the filter lets through:
   * U+0130 suggests "i" (the combining dot is dropped) and the Kelvin sign "k".
   */
  lemma SlugOfSpecialCapitals()
    ensures Slug([DottedCapitalI]) == "i"
    ensures Slug([KelvinSign]) == "k"
  {
    var dot := '\U{307}';
    assert LowerAll([DottedCapitalI]) == ['i', dot];
    assert !Kept(dot);
    assert StripDisallowed([dot]) == [];
    assert ['i', dot][1..] == [dot];
    assert StripDisallowed(['i', dot]) == ['i'];
    assert CollapseSpaces(['i']) == ['i'];
    assert LowerAll([KelvinSign]) == ['k'];
    assert StripDisallowed(['k']) == ['k'];
    assert CollapseSpaces(['k']) == ['k'];
  }

  lemma LowerCons(c: char, t: string)
    requires c != DottedCapitalI
    ensures LowerAll([c] + t) == [Lower(c)] + LowerAll(t)
  {
    assert ([c] + t)[0] == c && ([c] + t)[1..] == t;
  }

  lemma StripCons(c: char, t: string)
    requires Kept(c)
    ensures StripDisallowed([c] + t) == [c] + StripDisallowed(t)
  {
    assert ([c] + t)[0] == c && ([c] + t)[1..] == t;
  }

  lemma CollapseCons(c: char, t: string)
    requires !IsSpace(c)
    ensures CollapseSpaces([c] + t) == [c] + CollapseSpaces(t)
  {
    assert ([c] + t)[0] == c && ([c] + t)[1..] == t;
  }

  lemma CollapseSingleSpace(c: char, t: string)
    requires IsSpace(c) && t != [] && !IsSpace(t[0])
    ensures CollapseSpaces([c] + t) == ['-'] + CollapseSpaces(t)
  {
    assert ([c] + t)[0] == c && ([c] + t)[1..] == t;
    assert SkipSpaces([c] + t) == SkipSpaces(t) == t;
  }

  /** The strings of `SlugOfMyRing`, each its first character and the rest. */
  lemma MyRingSplits()
    ensures "My Ring" == ['M'] + "y Ring" && "y Ring" == ['y'] + " Ring" && " Ring" == [' '] + "Ring"
    ensures "Ring" == ['R'] + "ing" && "ring" == ['r'] + "ing"
    ensures "ing" == ['i'] + "ng" && "ng" == ['n'] + "g" && "g" == ['g'] + ""
    ensures "my ring" == ['m'] + "y ring" && "y ring" == ['y'] + " ring" && " ring" == [' '] + "ring"
    ensures "my-ring" == ['m'] + "y-ring" && "y-ring" == ['y'] + "-ring" && "-ring" == ['-'] + "ring"
  {
  }

  lemma LowerMyRing()
    ensures LowerAll("My Ring") == "my ring"
  {
    MyRingSplits();
    assert LowerAll("") == "";
    LowerCons('g', "");
    LowerCons('n', "g");
    LowerCons('i', "ng");
    assert LowerAll("ing") == "ing";
    LowerCons('R', "ing");
    assert Lower('R') == 'r' && LowerAll("Ring") == "ring";
    LowerCons(' ', "Ring");
    assert Lower(' ') == ' ' && LowerAll(" Ring") == " ring";
    LowerCons('y', " Ring");
    assert Lower('y') == 'y' && LowerAll("y Ring") == "y ring";
    LowerCons('M', "y Ring");
    assert Lower('M') == 'm' && LowerAll("My Ring") == ['m'] + "y ring";
  }

  lemma StripMyRing()
    ensures StripDisallowed("my ring") == "my ring"
  {
    MyRingSplits();
    assert Kept('g') && Kept('n') && Kept('i') && Kept('r') && Kept('y') && Kept('m') && Kept(' ');
    StripCons('g', "");
    StripCons('n', "g");
    StripCons('i', "ng");
    StripCons('r', "ing");
    StripCons(' ', "ring");
    StripCons('y', " ring");
    StripCons('m', "y ring");
  }

  lemma CollapseMyRing()
    ensures CollapseSpaces("my ring") == "my-ring"
  {
    MyRingSplits();
    assert !IsSpace('g') && !IsSpace('n') && !IsSpace('i') && !IsSpace('r') && !IsSpace('y') && !IsSpace('m');
    CollapseCons('g', "");
    CollapseCons('n', "g");
    CollapseCons('i', "ng");
    CollapseCons('r', "ing");
    CollapseSingleSpace(' ', "ring");
    CollapseCons('y', " ring");
    CollapseCons('m', "y ring");
  }

  /** A name with a capital and a space: "My Ring" suggests "my-ring". */
  lemma SlugOfMyRing()
    ensures Slug("My Ring") == "my-ring"
  {
    LowerMyRing();
    StripMyRing();
    CollapseMyRing();
  }

  // ---------------------------------------------------------------------------
  // The form as a state machine

  /**
   * The fields the script reads and writes. `cardIds` are the hidden
   * `ring_id` fields of the ring cards' approve/reject, remove, curated and
   * delete forms, in page order: the script's `input[name="ring_id"]`
   * selector matches them too, so a name edit writes the slug into every one.
   */
  datatype Form = Form(ringName: string, ringId: string, manual: bool, ringType: RingType, secretShown: bool,
                       cardIds: seq<string>)

  /** An `input` on the name field, an `input` on the id field, or a `change` of the ring-type select. */
  datatype FormEvent = NameTyped(name: string) | IdTyped(id: string) | TypeSelected(kind: RingType)

  function Step(f: Form, e: FormEvent): Form {
    match e
    case NameTyped(n) =>
      if f.manual then f.(ringName := n)
      else f.(ringName := n, ringId := Slug(n), cardIds := seq(|f.cardIds|, _ => Slug(n)))
    case IdTyped(v) => f.(ringId := v, manual := true)
    case TypeSelected(t) => f.(ringType := t, secretShown := t == Private)
  }

  function Run(f: Form, es: seq<FormEvent>): Form
    decreases |es|
  {
    if es == [] then f else Run(Step(f, es[0]), es[1..])
  }

  /** The form after page load, including the initial `.trigger('change')` on the first option; `cards` are the ring ids the cards' forms were rendered with. */
  function Loaded(cards: seq<string>): Form {
    Form("", "", false, Open, false, cards)
  }

  /** The secret row is visible exactly when the chosen type is private. */
  predicate SecretRowMatches(f: Form) {
    f.secretShown <==> f.ringType == Private
  }

  /** While the id has not been typed by hand, it is the slug of the current name. */
  predicate AutoFilled(f: Form) {
    !f.manual ==> f.ringId == Slug(f.ringName)
  }

  /** Every sequence of edits from page load keeps the secret row in step with the type and the id in step with the name. */
  lemma {:induction false} FormInvariants(f: Form, es: seq<FormEvent>)
    requires SecretRowMatches(f) && AutoFilled(f)
    ensures SecretRowMatches(Run(f, es)) && AutoFilled(Run(f, es))
    decreases |es|
  {
    if es != [] {
      FormInvariants(Step(f, es[0]), es[1..]);
    }
  }

  lemma LoadedSatisfiesInvariants(cards: seq<string>)
    ensures SecretRowMatches(Loaded(cards)) && AutoFilled(Loaded(cards))
  {
    assert Slug("") == "";
  }

  /** Once the id has been typed by hand, the flag stays set, no name edit overwrites the id, and the cards' forms keep their ids. */
  lemma {:induction false} ManualIdIsKept(f: Form, es: seq<FormEvent>)
    requires f.manual
    ensures Run(f, es).manual
    ensures Run(f, es).cardIds == f.cardIds
    ensures (forall k :: 0 <= k < |es| ==> !es[k].IdTyped?) ==> Run(f, es).ringId == f.ringId
    decreases |es|
  {
    if es != [] {
      ManualIdIsKept(Step(f, es[0]), es[1..]);
    }
  }

  /**
   * Before the id is typed by hand, a name edit re-targets every card's form:
   * approve, reject, remove, curated and delete then post the new name's slug
   * as their `ring_id` instead of the ring they were rendered for.
   */
  lemma NameEditRetargetsCards(f: Form, name: string)
    requires !f.manual
    ensures var g := Step(f, NameTyped(name));
      && |g.cardIds| == |f.cardIds|
      && (forall k :: 0 <= k < |g.cardIds| ==> g.cardIds[k] == Slug(name) == g.ringId)
      && (forall k :: 0 <= k < |f.cardIds| && f.cardIds[k] != Slug(name) ==> g.cardIds[k] != f.cardIds[k])
  {
  }

  /** Every card's form posts the same ring id as the id field. */
  predicate CardsFollowId(f: Form) {
    forall k :: 0 <= k < |f.cardIds| ==> f.cardIds[k] == f.ringId
  }

  /**
   * While the id is not typed by hand, the cards keep their number and, from
   * the first name edit on, all post the id field's value.
   */
  lemma {:induction false} CardsFollowName(f: Form, es: seq<FormEvent>)
    requires !f.manual
    requires forall k :: 0 <= k < |es| ==> !es[k].IdTyped?
    ensures |Run(f, es).cardIds| == |f.cardIds|
    ensures (CardsFollowId(f) || exists k :: 0 <= k < |es| && es[k].NameTyped?) ==> CardsFollowId(Run(f, es))
    decreases |es|
  {
    if es != [] {
      var g := Step(f, es[0]);
      assert es[0].NameTyped? ==> CardsFollowId(g);
      assert CardsFollowId(f) ==> CardsFollowId(g);
      forall k | 0 <= k < |es[1..]|
        ensures !es[1..][k].IdTyped?
      {
        assert es[1..][k] == es[k + 1];
      }
      if exists k :: 0 <= k < |es| && es[k].NameTyped? {
        var k :| 0 <= k < |es| && es[k].NameTyped?;
        if k > 0 {
          assert es[1..][k - 1].NameTyped?;
        }
      }
      CardsFollowName(g, es[1..]);
    }
  }

  /** Typing in the id field sets only that field: the cards' hidden fields receive no `input` event. */
  lemma IdEditKeepsCards(f: Form, id: string)
    ensures Step(f, IdTyped(id)).cardIds == f.cardIds
    ensures Step(f, IdTyped(id)).ringId == id
  {
  }

  /** The page's form: the script's handlers each perform one `Step`. */
  class RingForm {
    var ringName: string
    var ringId: string
    var manual: bool
    var ringType: RingType
    var secretShown: bool
    var cardIds: seq<string>

    function State(): Form
      reads this
    {
      Form(ringName, ringId, manual, ringType, secretShown, cardIds)
    }

    /** `$(document).ready`, with the ring-type `change` handler triggered once. */
    constructor (cards: seq<string>)
      ensures State() == Loaded(cards)
    {
      ringName, ringId, manual := "", "", false;
      ringType := Open;
      secretShown := false;
      cardIds := cards;
    }

    /**
     * `input` on the ring name: unless the id was edited by hand, `.val(id)`
     * writes the slug into every `ring_id` input on the page, the id field
     * and the cards' hidden fields alike.
     */
    method NameInput(name: string)
      modifies this
      ensures State() == Step(old(State()), NameTyped(name))
    {
      ringName := name;
      var id := Slug(name);
      if !manual {
        ringId := id;
        cardIds := seq(|cardIds|, _ => id);
      }
    }

    /** `input` on the ring id: the typed value stays and the `manual` flag is set. */
    method IdInput(id: string)
      modifies this
      ensures State() == Step(old(State()), IdTyped(id))
    {
      ringId := id;
      manual := true;
    }

    /** `change` on the ring type: the invite-code row is shown for private rings and hidden otherwise. */
    method TypeChange(kind: RingType)
      modifies this
      ensures State() == Step(old(State()), TypeSelected(kind))
    {
      ringType := kind;
      if kind == Private {
        secretShown := true;
      } else {
        secretShown := false;
      }
    }
  }
}
