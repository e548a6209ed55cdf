/**
 * A member's `ratings`: an ordered table from rater URL to a 1..5 score.
 * PHP arrays and JavaScript objects with string keys keep insertion order, and
 * `$ratings[$rater] = $rating` overwrites an existing key in place or appends a
 * new one, so the table is a sequence of votes whose raters are distinct.
 */
module Ratings {
  import opened Wrappers

  datatype Vote = Vote(rater: string, value: int)

  /** At most one entry per rater. */
  predicate UniqueRaters(vs: seq<Vote>) {
    vs == [] || (vs[0].rater !in Raters(vs[1..]) && UniqueRaters(vs[1..]))
  }

  /** Every score was accepted by the 1..5 range check. */
  predicate InRange(vs: seq<Vote>) {
    forall i :: 0 <= i < |vs| ==> 1 <= vs[i].value <= 5
  }

  function Raters(vs: seq<Vote>): (r: set<string>)
    ensures forall x :: x in r <==> exists i :: 0 <= i < |vs| && vs[i].rater == x
  {
    if vs == [] then {} else {vs[0].rater} + Raters(vs[1..])
  }

  /** `$ratings[$rater] ?? null`. */
  function Lookup(vs: seq<Vote>, rater: string): (r: Option<int>)
    ensures r.None? <==> rater !in Raters(vs)
    ensures r.Some? ==> exists i :: 0 <= i < |vs| && vs[i] == Vote(rater, r.value)
  {
    if vs == [] then None
    else if vs[0].rater == rater then Some(vs[0].value)
    else Lookup(vs[1..], rater)
  }

  /** `$ratings[$rater] = $value`: overwrite the rater's entry in place, or append one. */
  function Upsert(vs: seq<Vote>, rater: string, value: int): (r: seq<Vote>)
  {
    if vs == [] then [Vote(rater, value)]
    else if vs[0].rater == rater then [Vote(rater, value)] + vs[1..]
    else [vs[0]] + Upsert(vs[1..], rater, value)
  }

  /** After an upsert the rater's score is the new one and every other rater's is unchanged. */
  lemma {:induction false} UpsertLookup(vs: seq<Vote>, rater: string, value: int, other: string)
    ensures Lookup(Upsert(vs, rater, value), rater) == Some(value)
    ensures other != rater ==> Lookup(Upsert(vs, rater, value), other) == Lookup(vs, other)
  {
    if vs != [] && vs[0].rater != rater {
      UpsertLookup(vs[1..], rater, value, other);
    }
  }

  /** Upsert adds an entry only for a new rater. */
  lemma {:induction false} UpsertRaters(vs: seq<Vote>, rater: string, value: int)
    ensures Raters(Upsert(vs, rater, value)) == Raters(vs) + {rater}
    ensures |Upsert(vs, rater, value)| == if rater in Raters(vs) then |vs| else |vs| + 1
  {
    if vs != [] && vs[0].rater != rater {
      UpsertRaters(vs[1..], rater, value);
    }
  }

  /** Upsert keeps at most one entry per rater. */
  lemma {:induction false} UpsertUnique(vs: seq<Vote>, rater: string, value: int)
    requires UniqueRaters(vs)
    ensures UniqueRaters(Upsert(vs, rater, value))
  {
    if vs != [] && vs[0].rater != rater {
      UpsertUnique(vs[1..], rater, value);
      UpsertRaters(vs[1..], rater, value);
      assert Upsert(vs, rater, value)[1..] == Upsert(vs[1..], rater, value);
    } else if vs != [] {
      assert Upsert(vs, rater, value)[1..] == vs[1..];
    }
  }

  /** Upsert of an in-range score keeps every score in range. */
  lemma {:induction false} UpsertInRange(vs: seq<Vote>, rater: string, value: int)
    requires InRange(vs) && 1 <= value <= 5
    ensures InRange(Upsert(vs, rater, value))
  {
    if vs != [] && vs[0].rater != rater {
      UpsertInRange(vs[1..], rater, value);
    }
  }

  /** A second vote by the same rater replaces the first: only the last one is kept. */
  lemma {:induction false} UpsertOverwrites(vs: seq<Vote>, rater: string, first: int, second: int)
    ensures Upsert(Upsert(vs, rater, first), rater, second) == Upsert(vs, rater, second)
  {
    if vs != [] && vs[0].rater != rater {
      UpsertOverwrites(vs[1..], rater, first, second);
    }
  }

  /** `array_sum` of the scores, accumulated front to back as the JavaScript loop does. */
  function Total(vs: seq<Vote>): int
  {
    if vs == [] then 0 else Total(vs[..|vs| - 1]) + vs[|vs| - 1].value
  }

  /** In-range scores give a total between `count` and `5 * count`, so the average lies in [1, 5]. */
  lemma {:induction false} TotalBounds(vs: seq<Vote>)
    requires InRange(vs)
    ensures |vs| <= Total(vs) <= 5 * |vs|
  {
    if vs != [] {
      TotalBounds(vs[..|vs| - 1]);
    }
  }
}
