/**
 * The crate records the detector works on, the registry of popular names
 * that every rule consults, and the pieces all rules share: the same-author
 * test, the guard a candidate must pass, and the "most popular match only"
 * selection.
 */
module Crates {
  import opened Tables

  datatype Option<+T> = None | Some(value: T)

  type Name = string

  /** An owner login; None when the owner join found neither a user nor a team (SQL NULL). */
  type Author = Option<string>

  /** One entry of the `crates` dictionary: the metadata columns plus the grouped owner logins. */
  datatype Crate = Crate(
    authors: seq<Author>,
    homepage: Option<string>,
    repository: Option<string>,
    documentation: Option<string>,
    description: Option<string>,
    downloads: int)

  /**
   * What the detector's module-level state holds once it is populated:
   * `crates` (every popular and recently updated crate), `order` (the keys of
   * `crates` in insertion order, which is what `popular_package_list`, a live
   * view of those keys, iterates), `popular` (`popular_package_set`) and
   * `bitflips` (`popular_bitflips`).
   */
  datatype Registry = Registry(
    crates: map<Name, Crate>,
    order: seq<Name>,
    popular: set<Name>,
    bitflips: map<Name, seq<Name>>)

  /** Popular names have records and are listed; the bit-flip index only points at popular names. */
  predicate Valid(reg: Registry) {
    && reg.popular <= reg.crates.Keys
    && (forall p :: p in reg.popular ==> p in reg.order)
    && (forall bf, p :: bf in reg.bitflips && p in reg.bitflips[bf] ==> p in reg.popular)
  }

  /** The early-return search of `same_author` over one author list against another. */
  function SharesAuthor(xs: seq<Author>, ys: seq<Author>): (r: bool)
    ensures r <==> exists a :: a in xs && a in ys
  {
    if xs == [] then false
    else if xs[0] in ys then true
    else SharesAuthor(xs[1..], ys)
  }

  lemma {:induction false} SharesAuthorIff(xs: seq<Author>, ys: seq<Author>)
    ensures SharesAuthor(xs, ys) <==> exists i :: 0 <= i < |xs| && xs[i] in ys
  {
    if xs != [] && xs[0] !in ys {
      SharesAuthorIff(xs[1..], ys);
      if exists i :: 0 <= i < |xs| && xs[i] in ys {
        var i :| 0 <= i < |xs| && xs[i] in ys;
        assert xs[1..][i - 1] in ys;
      }
      if SharesAuthor(xs[1..], ys) {
        var i :| 0 <= i < |xs[1..]| && xs[1..][i] in ys;
        assert xs[i + 1] in ys;
      }
    }
  }

  /** `same_author`: whether crates `p1` and `p2` have an author in common. */
  function SameAuthor(crates: map<Name, Crate>, p1: Name, p2: Name): (r: bool)
    requires p1 in crates && p2 in crates
    ensures r == SharesAuthor(crates[p2].authors, crates[p1].authors)
  {
    SharesAuthor(crates[p1].authors, crates[p2].authors)
  }

  /** Two crates share an author exactly when some author appears in both author lists. */
  lemma SameAuthorIff(crates: map<Name, Crate>, p1: Name, p2: Name)
    requires p1 in crates && p2 in crates
    ensures SameAuthor(crates, p1, p2)
        <==> exists a :: a in crates[p1].authors && a in crates[p2].authors
  {
    SharesAuthorIff(crates[p1].authors, crates[p2].authors);
  }

  /** Owner-less crates (a NULL owner, `None == None`) count as sharing an author. */
  lemma NoOwnerSharesAuthor(crates: map<Name, Crate>, p1: Name, p2: Name)
    requires p1 in crates && p2 in crates
    requires None in crates[p1].authors && None in crates[p2].authors
    ensures SameAuthor(crates, p1, p2)
  {
    SameAuthorIff(crates, p1, p2);
  }

  /** The guard of every rule: `s` is popular, shares no author with `name`, and is not `name`. */
  predicate IsTarget(reg: Registry, name: Name, s: Name): (r: bool)
    requires Valid(reg) && name in reg.crates
    ensures r ==> s in reg.crates
    ensures r ==> forall a :: a in reg.crates[name].authors ==> a !in reg.crates[s].authors
  {
    s in reg.popular && !SameAuthor(reg.crates, name, s) && s != name
  }

  /** The candidates, in order, that pass the guard: what a rule's loop appends. */
  function KeepTargets(reg: Registry, name: Name, cands: seq<Name>): (r: seq<Name>)
    requires Valid(reg) && name in reg.crates
    ensures |r| <= |cands|
  {
    if cands == [] then []
    else
      var last := cands[|cands| - 1];
      var init := cands[..|cands| - 1];
      assert cands == init + [last];
      KeepTargets(reg, name, init) + (if IsTarget(reg, name, last) then [last] else [])
  }

  /** The kept candidates are exactly the candidates that pass the guard. */
  lemma {:induction false} KeepTargetsAre(reg: Registry, name: Name, cands: seq<Name>)
    requires Valid(reg) && name in reg.crates
    ensures forall s :: s in KeepTargets(reg, name, cands) <==> s in cands && IsTarget(reg, name, s)
  {
    if cands != [] {
      var init := cands[..|cands| - 1];
      KeepTargetsAre(reg, name, init);
      assert cands == init + [cands[|cands| - 1]];
    }
  }

  /** One more candidate: appended when it passes the guard, dropped otherwise. */
  lemma KeepTargetsAppend(reg: Registry, name: Name, cands: seq<Name>, s: Name)
    requires Valid(reg) && name in reg.crates
    ensures IsTarget(reg, name, s) ==> KeepTargets(reg, name, cands + [s]) == KeepTargets(reg, name, cands) + [s]
    ensures !IsTarget(reg, name, s) ==> KeepTargets(reg, name, cands + [s]) == KeepTargets(reg, name, cands)
  {
    assert (cands + [s])[..|cands|] == cands;
  }

  /** `p` is the first entry of `order` that occurs in `packages`. */
  predicate EarliestIn(order: seq<Name>, packages: seq<Name>, p: Name) {
    exists k :: 0 <= k < |order| && order[k] == p && forall j :: 0 <= j < k ==> order[j] !in packages
  }

  /** The loop of `get_most_popular_package`: the first entry of `order` in `packages`, if any. */
  function FirstListed(order: seq<Name>, packages: seq<Name>): (r: Option<Name>)
    ensures r.None? ==> forall k :: 0 <= k < |order| ==> order[k] !in packages
    ensures r.Some? ==> r.value in packages && EarliestIn(order, packages, r.value)
  {
    if order == [] then None
    else if order[0] in packages then Some(order[0])
    else
      var rest := FirstListed(order[1..], packages);
      assert rest.Some? ==> EarliestIn(order, packages, rest.value) by {
        if rest.Some? {
          var k :| 0 <= k < |order[1..]| && order[1..][k] == rest.value
            && forall j :: 0 <= j < k ==> order[1..][j] !in packages;
          assert order[k + 1] == rest.value;
          assert forall j :: 0 <= j < k + 1 ==> order[j] !in packages by {
            forall j | 0 <= j < k + 1 ensures order[j] !in packages {
              if j > 0 { assert order[j] == order[1..][j - 1]; }
            }
          }
        }
      }
      rest
  }

  /**
   * `get_most_popular_package`: the package listed earliest in `order`, or
   * the first package when none is listed.
   */
  function MostPopular(order: seq<Name>, packages: seq<Name>): (r: Name)
    requires |packages| > 0
    ensures r in packages
    ensures (exists k :: 0 <= k < |order| && order[k] in packages) ==> EarliestIn(order, packages, r)
    ensures (forall k :: 0 <= k < |order| ==> order[k] !in packages) ==> r == packages[0]
  {
    match FirstListed(order, packages)
    case Some(p) => p
    case None => packages[0]
  }

  /**
   * The tail of every rule with a `return_all` flag: all matches, or only the
   * most popular one in a one-element list.
   */
  function Select(reg: Registry, found: seq<Name>, returnAll: bool): (r: seq<Name>)
    ensures forall s :: s in r ==> s in found
    ensures returnAll ==> r == found
    ensures !returnAll ==> |r| <= 1 && (r == [] <==> found == [])
    ensures !returnAll && Valid(reg) && (forall s :: s in found ==> s in reg.popular) && found != []
      ==> EarliestIn(reg.order, found, r[0])
  {
    if returnAll || |found| == 0 then found
    else
      assert Valid(reg) && (forall s :: s in found ==> s in reg.popular)
        ==> exists k :: 0 <= k < |reg.order| && reg.order[k] in found by {
        if Valid(reg) && (forall s :: s in found ==> s in reg.popular) {
          assert found[0] in reg.order;
          var k :| 0 <= k < |reg.order| && reg.order[k] == found[0];
        }
      }
      [MostPopular(reg.order, found)]
  }

  /** What a rule returns, given the candidates it tried: only targets, and every target when all are asked for. */
  lemma SelectTargets(reg: Registry, name: Name, cands: seq<Name>, returnAll: bool)
    requires Valid(reg) && name in reg.crates
    ensures var r := Select(reg, KeepTargets(reg, name, cands), returnAll);
      && (forall s :: s in r ==> s in cands && IsTarget(reg, name, s))
      && (returnAll ==> forall s :: s in cands && IsTarget(reg, name, s) ==> s in r)
      && (!returnAll ==> |r| <= 1)
  {
    KeepTargetsAre(reg, name, cands);
  }

  /** `s.lstrip()`: the leading whitespace removed. */
  function LeftStrip(s: string): string {
    if s != [] && IsSpace(s[0]) then LeftStrip(s[1..]) else s
  }

  /** `s.rstrip()`: the trailing whitespace removed. */
  function RightStrip(s: string): string {
    if s != [] && IsSpace(s[|s| - 1]) then RightStrip(s[..|s| - 1]) else s
  }

  /** `s.strip()`. */
  function Strip(s: string): string {
    RightStrip(LeftStrip(s))
  }

  /** Stripping the left side leaves nothing exactly when the string is all whitespace, and otherwise a non-space first character. */
  lemma {:induction false} LeftStripBlank(s: string)
    ensures LeftStrip(s) == [] <==> forall i :: 0 <= i < |s| ==> IsSpace(s[i])
    ensures LeftStrip(s) != [] ==> !IsSpace(LeftStrip(s)[0])
    decreases |s|
  {
    if s != [] && IsSpace(s[0]) {
      LeftStripBlank(s[1..]);
      if LeftStrip(s) == [] {
        forall i | 0 <= i < |s| ensures IsSpace(s[i]) {
          if i > 0 { assert s[i] == s[1..][i - 1]; }
        }
      }
    }
  }

  /** Stripping the right side of a string that starts with a non-space character leaves something. */
  lemma {:induction false} RightStripKeepsFirst(s: string)
    requires s != [] && !IsSpace(s[0])
    ensures RightStrip(s) != []
    decreases |s|
  {
    if IsSpace(s[|s| - 1]) {
      assert |s| > 1;
      RightStripKeepsFirst(s[..|s| - 1]);
    }
  }

  /** `d is None or d.strip() == ''`. */
  predicate IsBlank(d: Option<string>): (b: bool)
    ensures b <==> d.None? || Strip(d.value) == []
  {
    if d.None? then true
    else
      LeftStripBlank(d.value);
      if LeftStrip(d.value) != [] then RightStripKeepsFirst(LeftStrip(d.value)); false
      else true
  }

  /** The blank test as a property of the characters: no description, or whitespace only. */
  lemma IsBlankChars(d: Option<string>)
    ensures IsBlank(d) <==> d.None? || forall i :: 0 <= i < |d.value| ==> IsSpace(d.value[i])
  {
    if d.Some? { LeftStripBlank(d.value); }
  }

  /** `set(c['authors']) == {login}`: the crate has owners, and every one of them is `login`. */
  predicate SoleOwner(c: Crate, login: string) {
    c.authors != [] && forall a :: a in c.authors ==> a == Some(login)
  }

  /** The owner set of `c` is `{x}` exactly when `c` has owners and all of them are `x`. */
  lemma OwnerSetSingleton(c: Crate, x: Author)
    ensures (set a | a in c.authors) == {x} <==> c.authors != [] && forall a :: a in c.authors ==> a == x
  {
    var owners := set a | a in c.authors;
    if c.authors != [] && forall a :: a in c.authors ==> a == x {
      assert c.authors[0] in owners;
    }
    if owners == {x} {
      assert x in owners;
      forall a | a in c.authors ensures a == x {
        assert a in owners;
      }
    }
  }

  /**
   * `allowlisted`: the two known benign publishers, recognised by their sole
   * owner and their metadata links.
   */
  function Allowlisted(c: Crate): (r: bool)
    ensures r <==>
      || (SoleOwner(c, "blallo")
          && c.homepage == Some("https://xkcd.com/386")
          && c.documentation == Some("https://crates.io/policies")
          && c.repository == Some("https://github.com/blallo/xkcd-386"))
      || (SoleOwner(c, "skerkour")
          && c.repository == Some("https://github.com/skerkour/black-hat-rust"))
  {
    var owners := set a | a in c.authors;
    OwnerSetSingleton(c, Some("blallo"));
    OwnerSetSingleton(c, Some("skerkour"));
    || (owners == {Some("blallo")}
        && c.homepage == Some("https://xkcd.com/386")
        && c.documentation == Some("https://crates.io/policies")
        && c.repository == Some("https://github.com/blallo/xkcd-386"))
    || (owners == {Some("skerkour")}
        && c.repository == Some("https://github.com/skerkour/black-hat-rust"))
  }
}
