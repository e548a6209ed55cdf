/**
 * The few PHP and WordPress value rules the plugin relies on: `empty()` and the
 * short ternary `?:` on strings, and `trailingslashit` when endpoint URLs are built.
 */
module Php {

  /** `empty($s)` for a string: true for "" and for "0". */
  predicate Empty(s: string) {
    s == "" || s == "0"
  }

  /** `$a ?: $b` for strings: `$b` whenever `$a` is falsy. */
  function OrElse(a: string, b: string): (r: string)
    ensures !Empty(a) ==> r == a
    ensures Empty(a) ==> r == b
  {
    if Empty(a) then b else a
  }

  predicate IsSlash(c: char) {
    c == '/' || c == '\\'
  }

  /** `untrailingslashit`: strips every trailing '/' and '\'. */
  function Untrail(s: string): (r: string)
    ensures |r| <= |s| && r == s[..|r|]
    ensures r == [] || !IsSlash(r[|r| - 1])
    ensures forall k :: |r| <= k < |s| ==> IsSlash(s[k])
    decreases |s|
  {
    if |s| > 0 && IsSlash(s[|s| - 1]) then Untrail(s[..|s| - 1]) else s
  }

  /** `trailingslashit`: the URL with exactly one trailing '/'. */
  function TrailingSlashIt(s: string): (r: string)
    ensures |r| > 0 && r[|r| - 1] == '/'
  {
    Untrail(s) + "/"
  }

  /**
   * Exactly one slash ends the result: before it comes the input with its
   * trailing run of '/' and '\' cut off, and nothing else.
   */
  lemma TrailingSlashItExact(s: string)
    ensures var r := TrailingSlashIt(s);
      && (|r| == 1 || !IsSlash(r[|r| - 2]))
      && |r| <= |s| + 1 && r[..|r| - 1] == s[..|r| - 1]
      && forall k :: |r| - 1 <= k < |s| ==> IsSlash(s[k])
  {
    var u := Untrail(s);
    assert (u + "/")[..|u|] == u;
  }

  /** Building an endpoint from an URL that already ends in '/' changes nothing. */
  lemma {:induction false} TrailingSlashItIdempotent(s: string)
    ensures TrailingSlashIt(TrailingSlashIt(s)) == TrailingSlashIt(s)
  {
    var u := Untrail(s);
    assert (u + "/")[..|u + "/"| - 1] == u;
    UntrailFixed(u);
  }

  lemma UntrailFixed(u: string)
    requires u == [] || !IsSlash(u[|u| - 1])
    ensures Untrail(u) == u
  {
  }

  /** `site` and `site/` address the same endpoints. */
  lemma {:induction false} TrailingSlashAbsorbs(s: string)
    ensures TrailingSlashIt(s + "/") == TrailingSlashIt(s)
  {
    assert (s + "/")[..|s + "/"| - 1] == s;
  }
}
