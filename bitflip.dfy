/**
 * The bit-flip signal: the index from every single-bit-flip variant of a
 * popular name back to the popular names that produce it, and its lookup.
 * The bit-flip library (`blip.get_blips` followed by `get_string_blips`) is
 * not part of this model; it is the parameter `rawBlips`.
 */
module Bitflip {
  import opened Tables
  import opened Crates

  /** The variants of `xs` that `CRATE_NAME_REGEX.search` accepts, in order. */
  function KeepRegexMatches(xs: seq<Name>): (r: seq<Name>)
    ensures forall b :: b in r <==> b in xs && MatchesCrateNameRegex(b)
  {
    if xs == [] then []
    else (if MatchesCrateNameRegex(xs[0]) then [xs[0]] else []) + KeepRegexMatches(xs[1..])
  }

  /** The variants of `xs` that are crate names, in order. */
  function KeepCrateNames(xs: seq<Name>): (r: seq<Name>)
    ensures forall b :: b in r <==> b in xs && IsCrateName(b)
  {
    if xs == [] then []
    else (if IsCrateName(xs[0]) then [xs[0]] else []) + KeepCrateNames(xs[1..])
  }

  /** `blips` as written: the library's variants of `p` that the regex search accepts. */
  function BlipsAsWritten(rawBlips: Name -> seq<Name>, p: Name): (r: seq<Name>)
    ensures forall b :: b in r <==> b in rawBlips(p) && MatchesCrateNameRegex(b)
  {
    KeepRegexMatches(rawBlips(p))
  }

  /** `blips` as intended: the library's variants of `p` that are crate names. */
  function Blips(rawBlips: Name -> seq<Name>, p: Name): (r: seq<Name>)
    ensures forall b :: b in r <==> b in rawBlips(p) && IsCrateName(b)
  {
    KeepCrateNames(rawBlips(p))
  }

  /** A variant ending in a newline (a trailing `J` with bit 6 flipped) passes the regex but is no crate name. */
  lemma BlipsAsWrittenAdmitsNewline(p: Name)
    ensures "ab\n" in BlipsAsWritten(_ => ["ab\n"], p)
    ensures "ab\n" !in Blips(_ => ["ab\n"], p)
  {
    CrateNameRegexAdmitsNewline();
  }

  /** Every intended blip is a crate name produced by the library. */
  lemma BlipsAreCrateNames(rawBlips: Name -> seq<Name>, p: Name, b: Name)
    ensures b in Blips(rawBlips, p) <==> b in rawBlips(p) && IsCrateName(b)
  {
  }

  /**
   * Which filter `blips` applies to the library's variants: the regex search
   * as the program writes it, or the crate-name test it is meant to be.
   */
  datatype BlipFilter = AsWritten | Corrected

  /** `blips` under filter `f`. */
  function BlipsUnder(f: BlipFilter, rawBlips: Name -> seq<Name>, p: Name): (r: seq<Name>)
    ensures forall b :: b in r <==>
      b in rawBlips(p) && (if f == AsWritten then MatchesCrateNameRegex(b) else IsCrateName(b))
  {
    if f == AsWritten then BlipsAsWritten(rawBlips, p) else Blips(rawBlips, p)
  }

  /** `BlipsUnder(f, rawBlips, _)` as one function of the popular name. */
  function BlipsOf(f: BlipFilter, rawBlips: Name -> seq<Name>): Name -> seq<Name> {
    p => BlipsUnder(f, rawBlips, p)
  }

  /**
   * `index` maps every name in `blipsOf(p)` of every popular `p` to a list
   * holding `p`, and holds nothing else: every key has a non-empty list, and
   * every name listed under a key is popular and has that key in its list.
   */
  ghost predicate IsIndexOf(index: map<Name, seq<Name>>, popular: set<Name>, blipsOf: Name -> seq<Name>) {
    && (forall p, bf :: p in popular && bf in blipsOf(p) ==> bf in index && p in index[bf])
    && (forall bf, p :: bf in index && p in index[bf] ==> p in popular && bf in blipsOf(p))
    && (forall bf :: bf in index ==> index[bf] != [])
  }

  /** The bit-flip index of the popular names, with the blips under filter `f`. */
  ghost predicate IsBlipIndex(index: map<Name, seq<Name>>, popular: set<Name>, f: BlipFilter, rawBlips: Name -> seq<Name>) {
    IsIndexOf(index, popular, BlipsOf(f, rawBlips))
  }

  /**
   * `index` is `index0` with `p` appended to the list of every key in `bs`,
   * a new key starting a fresh list: nothing is lost, and only `p` is added.
   */
  ghost predicate AddedBlips(index0: map<Name, seq<Name>>, index: map<Name, seq<Name>>, p: Name, bs: seq<Name>) {
    && (forall bf :: bf in bs ==> bf in index && p in index[bf])
    && (forall bf, q :: bf in index0 && q in index0[bf] ==> bf in index && q in index[bf])
    && (forall bf, q :: bf in index && q in index[bf] ==> (bf in index0 && q in index0[bf]) || (q == p && bf in bs))
    && (forall bf :: bf in index ==> index[bf] != [])
  }

  /** The inner loop of `generate_bitflips`: `setdefault(bf, []).append(p)` for each `bf` in `bs`. */
  method AddBlips(index0: map<Name, seq<Name>>, p: Name, bs: seq<Name>) returns (index: map<Name, seq<Name>>)
    requires forall bf :: bf in index0 ==> index0[bf] != []
    ensures AddedBlips(index0, index, p, bs)
  {
    index := index0;
    var k := 0;
    while k < |bs|
      invariant 0 <= k <= |bs|
      invariant AddedBlips(index0, index, p, bs[..k])
    {
      var bf := bs[k];
      var list := if bf in index then index[bf] else [];
      index := index[bf := list + [p]];
      assert bs[..k + 1] == bs[..k] + [bf];
      k := k + 1;
    }
    assert bs[..k] == bs;
  }

  /** Adding the blips of one more popular name extends a bit-flip index to that name. */
  lemma AddBlipsExtends(index0: map<Name, seq<Name>>, index: map<Name, seq<Name>>, done: set<Name>,
                        p: Name, blipsOf: Name -> seq<Name>)
    requires IsIndexOf(index0, done, blipsOf)
    requires AddedBlips(index0, index, p, blipsOf(p))
    ensures IsIndexOf(index, done + {p}, blipsOf)
  {
    forall q, bf | q in done + {p} && bf in blipsOf(q) ensures bf in index && q in index[bf] {
      if q != p {
        assert bf in index0 && q in index0[bf];
      }
    }
  }

  /**
   * `generate_bitflips`: the bit-flip index of the popular names, with the
   * blips under `f` (`AsWritten` is the program as written).
   */
  method GenerateBitflips(popular: set<Name>, f: BlipFilter, rawBlips: Name -> seq<Name>) returns (index: map<Name, seq<Name>>)
    ensures IsBlipIndex(index, popular, f, rawBlips)
  {
    var blipsOf := BlipsOf(f, rawBlips);
    index := map[];
    var remaining := popular;
    while remaining != {}
      invariant remaining <= popular
      invariant IsIndexOf(index, popular - remaining, blipsOf)
      decreases |remaining|
    {
      var p :| p in remaining;
      var index1 := AddBlips(index, p, blipsOf(p));
      AddBlipsExtends(index, index1, popular - remaining, p, blipsOf);
      assert popular - (remaining - {p}) == (popular - remaining) + {p};
      index := index1;
      remaining := remaining - {p};
    }
    assert popular - remaining == popular;
  }

  /** `bitflips`: the popular names one bit flip away from `name`, as the index lists them. */
  function Bitflips(reg: Registry, name: Name): (r: seq<Name>)
    ensures name !in reg.bitflips ==> r == []
    ensures Valid(reg) ==> forall p :: p in r ==> p in reg.popular
  {
    if name in reg.bitflips then reg.bitflips[name] else []
  }

  /**
   * Over an index built by `GenerateBitflips`, `bitflips(name)` lists `p`
   * exactly when `p` is popular and `name` is one of its blips.
   */
  lemma BitflipsAre(reg: Registry, f: BlipFilter, rawBlips: Name -> seq<Name>, name: Name, p: Name)
    requires IsBlipIndex(reg.bitflips, reg.popular, f, rawBlips)
    ensures p in Bitflips(reg, name) <==> p in reg.popular && name in BlipsUnder(f, rawBlips, p)
  {
    assert BlipsOf(f, rawBlips)(p) == BlipsUnder(f, rawBlips, p);
  }

  /** Every key of the index the program builds is accepted by `CRATE_NAME_REGEX.search`. */
  lemma BlipIndexKeysMatchRegex(index: map<Name, seq<Name>>, popular: set<Name>, rawBlips: Name -> seq<Name>, bf: Name)
    requires IsBlipIndex(index, popular, AsWritten, rawBlips) && bf in index
    ensures MatchesCrateNameRegex(bf)
  {
    var p := index[bf][0];
    assert p in index[bf];
    assert bf in BlipsOf(AsWritten, rawBlips)(p);
  }

  /** Every key of the corrected index is a crate name. */
  lemma BlipIndexKeysAreCrateNames(index: map<Name, seq<Name>>, popular: set<Name>, rawBlips: Name -> seq<Name>, bf: Name)
    requires IsBlipIndex(index, popular, Corrected, rawBlips) && bf in index
    ensures IsCrateName(bf)
  {
    var p := index[bf][0];
    assert p in index[bf];
    assert bf in BlipsOf(Corrected, rawBlips)(p);
  }

  /**
   * The index the program builds can key a variant that is no crate name: a
   * popular `abJ` whose library variants are just `ab\n` yields the key `ab\n`.
   */
  lemma AsWrittenIndexKeysNewline(index: map<Name, seq<Name>>)
    requires IsBlipIndex(index, {"abJ"}, AsWritten, _ => ["ab\n"])
    ensures "ab\n" in index && "abJ" in index["ab\n"] && !IsCrateName("ab\n")
  {
    CrateNameRegexAdmitsNewline();
    assert "ab\n" in BlipsOf(AsWritten, _ => ["ab\n"])("abJ");
  }
}
