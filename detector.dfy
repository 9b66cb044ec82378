/**
 * The detector's top level: every rule applied to one suspect crate, the
 * duplicates removed, and the survivors filtered by how alike the two
 * descriptions are. The language model (`nlp`) and the edit distance
 * (`Levenshtein.distance`) are not part of this model; they are the
 * parameters in `Metrics`.
 */
module Detector {
  import opened Tables
  import opened Crates
  import opened Words
  import opened Version
  import opened Signals
  import opened Bitflip

  /** The two thresholds of the command line (`--lev-threshold`, `--similarity-threshold`). */
  datatype Config = Config(levenshteinThreshold: int, similarityThreshold: real)

  const DefaultConfig: Config := Config(DEFAULT_LEVENSHTEIN_THRESHOLD, DEFAULT_SIMILARITY_THRESHOLD)

  /**
   * `nlp(d).vector_norm`, `nlp(a).similarity(nlp(b))` and
   * `Levenshtein.distance(a, b)`, fixed for one run.
   */
  datatype Metrics = Metrics(
    vectorNorm: string -> real,
    similarity: (string, string) -> real,
    distance: (string, string) -> nat)

  /** A kept target's value in the result dictionary: the integer 100 or a distance, or a float similarity. */
  datatype Score = Int(n: int) | Float(x: real)

  /**
   * The exceptions `filter_targets` lets escape: the `TypeError` taken of
   * `Levenshtein.distance` on a target without a description, and the
   * `ValueError` raised for a target description without a vector.
   */
  datatype Failure = NoDescription(target: Name) | NoVector(target: Name)

  datatype Result<T> = Ok(value: T) | Err(error: Failure)

  /** What `filter_targets` does with one target: keep it with a score, drop it, or raise. */
  datatype Verdict = Keep(score: Score) | Drop | Fail(failure: Failure)

  /**
   * The treatment of target `t` (description `td`) against the suspect's
   * description `pd`: blank against blank scores 100; a suspect description
   * without a vector falls back to the edit distance; otherwise non-blank
   * target descriptions are compared by similarity.
   */
  function Judge(cfg: Config, m: Metrics, pd: Option<string>, t: Name, td: Option<string>): (v: Verdict)
    ensures v.Fail? ==> v.failure.target == t && !IsBlank(pd)
    ensures v.Fail? && v.failure.NoDescription? ==> td.None?
    ensures v.Fail? && v.failure.NoVector? ==> !IsBlank(td)
    ensures IsBlank(pd) ==> (v.Keep? <==> IsBlank(td))
    ensures !IsBlank(pd) && m.vectorNorm(pd.value) == 0.0 && td.None? ==> v == Fail(NoDescription(t))
    ensures !IsBlank(pd) && m.vectorNorm(pd.value) != 0.0 && !IsBlank(td) && m.vectorNorm(td.value) == 0.0
            ==> v == Fail(NoVector(t))
  {
    if IsBlank(pd) then
      if IsBlank(td) then Keep(Int(100)) else Drop
    else if m.vectorNorm(pd.value) == 0.0 then
      if td.None? then Fail(NoDescription(t))
      else
        var dist := m.distance(pd.value, td.value);
        if dist < cfg.levenshteinThreshold then Keep(Int(dist)) else Drop
    else if IsBlank(td) then Drop
    else if m.vectorNorm(td.value) == 0.0 then Fail(NoVector(t))
    else
      var sim := m.similarity(pd.value, td.value);
      if sim > cfg.similarityThreshold then Keep(Float(sim)) else Drop
  }

  /** The verdict on target `t` for suspect `package`, from their recorded descriptions. */
  function VerdictOf(crates: map<Name, Crate>, cfg: Config, m: Metrics, package: Name, t: Name): Verdict
    requires package in crates && t in crates
  {
    Judge(cfg, m, crates[package].description, t, crates[t].description)
  }

  /** `kept` holds exactly the targets of `ts` that are kept, each with its score. */
  ghost predicate KeptFrom(crates: map<Name, Crate>, cfg: Config, m: Metrics, package: Name, ts: seq<Name>,
                     kept: map<Name, Score>)
    requires package in crates && forall t :: t in ts ==> t in crates
  {
    && (forall t :: t in kept <==> t in ts && VerdictOf(crates, cfg, m, package, t).Keep?)
    && (forall t :: t in kept ==> t in crates && kept[t] == VerdictOf(crates, cfg, m, package, t).score)
  }

  /** No target before position `k` of `ts` raises. */
  predicate NoFailureBefore(crates: map<Name, Crate>, cfg: Config, m: Metrics, package: Name, ts: seq<Name>, k: nat)
    requires package in crates && forall t :: t in ts ==> t in crates
    requires k <= |ts|
  {
    forall j :: 0 <= j < k ==> !VerdictOf(crates, cfg, m, package, ts[j]).Fail?
  }

  /** `e` is what the first raising target of `ts` raises. */
  predicate FirstFailure(crates: map<Name, Crate>, cfg: Config, m: Metrics, package: Name, ts: seq<Name>, e: Failure)
    requires package in crates && forall t :: t in ts ==> t in crates
  {
    exists i :: 0 <= i < |ts| && VerdictOf(crates, cfg, m, package, ts[i]) == Fail(e)
      && NoFailureBefore(crates, cfg, m, package, ts, i)
  }

  /** The edit-distance loop of `filter_targets`, for a suspect description `pd` without a vector. */
  method FilterByDistance(crates: map<Name, Crate>, cfg: Config, m: Metrics, package: Name, targets: seq<Name>)
    returns (r: Result<map<Name, Score>>)
    requires package in crates && forall t :: t in targets ==> t in crates
    requires var pd := crates[package].description; !IsBlank(pd) && m.vectorNorm(pd.value) == 0.0
    ensures r.Err? <==> exists i :: 0 <= i < |targets| && VerdictOf(crates, cfg, m, package, targets[i]).Fail?
    ensures r.Err? ==> FirstFailure(crates, cfg, m, package, targets, r.error)
    ensures r.Ok? ==> KeptFrom(crates, cfg, m, package, targets, r.value)
  {
    var pd := crates[package].description.value;
    var kept: map<Name, Score> := map[];
    var i := 0;
    while i < |targets|
      invariant 0 <= i <= |targets|
      invariant NoFailureBefore(crates, cfg, m, package, targets, i)
      invariant KeptFrom(crates, cfg, m, package, targets[..i], kept)
    {
      var t := targets[i];
      var td := crates[t].description;
      assert targets[..i + 1] == targets[..i] + [t];
      if td.None? {
        assert VerdictOf(crates, cfg, m, package, targets[i]) == Fail(NoDescription(t));
        return Err(NoDescription(t));
      }
      var dist := m.distance(pd, td.value);
      if dist < cfg.levenshteinThreshold {
        kept := kept[t := Int(dist)];
      }
      i := i + 1;
    }
    assert targets[..i] == targets;
    r := Ok(kept);
  }

  /** The similarity loop of `filter_targets`, for a suspect description `pd` with a vector. */
  method FilterBySimilarity(crates: map<Name, Crate>, cfg: Config, m: Metrics, package: Name, targets: seq<Name>)
    returns (r: Result<map<Name, Score>>)
    requires package in crates && forall t :: t in targets ==> t in crates
    requires var pd := crates[package].description; !IsBlank(pd) && m.vectorNorm(pd.value) != 0.0
    ensures r.Err? <==> exists i :: 0 <= i < |targets| && VerdictOf(crates, cfg, m, package, targets[i]).Fail?
    ensures r.Err? ==> FirstFailure(crates, cfg, m, package, targets, r.error)
    ensures r.Ok? ==> KeptFrom(crates, cfg, m, package, targets, r.value)
  {
    var pd := crates[package].description.value;
    var kept: map<Name, Score> := map[];
    var i := 0;
    while i < |targets|
      invariant 0 <= i <= |targets|
      invariant NoFailureBefore(crates, cfg, m, package, targets, i)
      invariant KeptFrom(crates, cfg, m, package, targets[..i], kept)
    {
      var t := targets[i];
      var td := crates[t].description;
      assert targets[..i + 1] == targets[..i] + [t];
      if !IsBlank(td) {
        if m.vectorNorm(td.value) == 0.0 {
          assert VerdictOf(crates, cfg, m, package, targets[i]) == Fail(NoVector(t));
          return Err(NoVector(t));
        }
        var sim := m.similarity(pd, td.value);
        if sim > cfg.similarityThreshold {
          kept := kept[t := Float(sim)];
        }
      }
      i := i + 1;
    }
    assert targets[..i] == targets;
    r := Ok(kept);
  }

  /**
   * `filter_targets`: the targets whose description is close enough to the
   * suspect's, with their scores, or the exception of the first target the
   * comparison cannot handle.
   */
  method FilterTargets(crates: map<Name, Crate>, cfg: Config, m: Metrics, package: Name, targets: seq<Name>)
    returns (r: Result<map<Name, Score>>)
    requires package in crates && forall t :: t in targets ==> t in crates
    ensures r.Err? <==> exists i :: 0 <= i < |targets| && VerdictOf(crates, cfg, m, package, targets[i]).Fail?
    ensures r.Err? ==> FirstFailure(crates, cfg, m, package, targets, r.error)
    ensures r.Ok? ==> KeptFrom(crates, cfg, m, package, targets, r.value)
  {
    var pd := crates[package].description;
    if IsBlank(pd) {
      var kept := map t | t in targets && IsBlank(crates[t].description) :: Int(100);
      return Ok(kept);
    }
    if m.vectorNorm(pd.value) == 0.0 {
      r := FilterByDistance(crates, cfg, m, package, targets);
    } else {
      r := FilterBySimilarity(crates, cfg, m, package, targets);
    }
  }

  /** A blank suspect description never raises, and keeps exactly the blank targets, at 100. */
  lemma BlankSuspectKeepsBlankTargets(cfg: Config, m: Metrics, pd: Option<string>, t: Name, td: Option<string>)
    requires IsBlank(pd)
    ensures Judge(cfg, m, pd, t, td).Keep? <==> IsBlank(td)
    ensures !Judge(cfg, m, pd, t, td).Fail?
    ensures Judge(cfg, m, pd, t, td).Keep? ==> Judge(cfg, m, pd, t, td).score == Int(100)
  {
  }

  /** A kept target's score clears the threshold of the comparison that kept it. */
  lemma KeptScoresClearThresholds(cfg: Config, m: Metrics, pd: Option<string>, t: Name, td: Option<string>)
    requires !IsBlank(pd) && Judge(cfg, m, pd, t, td).Keep?
    ensures var v := Judge(cfg, m, pd, t, td);
      && (m.vectorNorm(pd.value) == 0.0 ==> v.score.Int? && v.score.n < cfg.levenshteinThreshold)
      && (m.vectorNorm(pd.value) != 0.0 ==> v.score.Float? && v.score.x > cfg.similarityThreshold
                                            && !IsBlank(td))
  {
  }

  /**
   * On the edit-distance path a target with a description is kept exactly
   * when its distance is below the threshold, scored by that distance.
   */
  lemma DistancePathKeepsIff(cfg: Config, m: Metrics, pd: Option<string>, t: Name, td: Option<string>)
    requires !IsBlank(pd) && m.vectorNorm(pd.value) == 0.0 && td.Some?
    ensures var v := Judge(cfg, m, pd, t, td);
      && (v.Keep? <==> m.distance(pd.value, td.value) < cfg.levenshteinThreshold)
      && (v.Keep? ==> v.score == Int(m.distance(pd.value, td.value)))
      && (!v.Keep? ==> v == Drop)
  {
  }

  /**
   * On the similarity path a non-blank target with a vector is kept exactly
   * when its similarity exceeds the threshold, scored by that similarity.
   */
  lemma SimilarityPathKeepsIff(cfg: Config, m: Metrics, pd: Option<string>, t: Name, td: Option<string>)
    requires !IsBlank(pd) && m.vectorNorm(pd.value) != 0.0 && !IsBlank(td) && m.vectorNorm(td.value) != 0.0
    ensures var v := Judge(cfg, m, pd, t, td);
      && (v.Keep? <==> m.similarity(pd.value, td.value) > cfg.similarityThreshold)
      && (v.Keep? ==> v.score == Float(m.similarity(pd.value, td.value)))
      && (!v.Keep? ==> v == Drop)
  {
  }

  /**
   * A raised exception names the target it was raised for: a missing
   * description only on the edit-distance path, a missing vector only on the
   * similarity path.
   */
  lemma FailuresNameTheTarget(cfg: Config, m: Metrics, pd: Option<string>, t: Name, td: Option<string>)
    requires Judge(cfg, m, pd, t, td).Fail?
    ensures var e := Judge(cfg, m, pd, t, td).failure;
      && !IsBlank(pd) && e.target == t
      && (e.NoDescription? <==> m.vectorNorm(pd.value) == 0.0)
      && (e.NoDescription? ==> td.None?)
      && (e.NoVector? ==> !IsBlank(td) && m.vectorNorm(td.value) == 0.0)
  {
  }

  /**
   * Raising either threshold in the lenient direction keeps every target
   * kept before, with the same score, and raises nothing new.
   */
  lemma LooserThresholdsKeepMore(cfg: Config, cfg': Config, m: Metrics, pd: Option<string>, t: Name, td: Option<string>)
    requires cfg.levenshteinThreshold <= cfg'.levenshteinThreshold
    requires cfg'.similarityThreshold <= cfg.similarityThreshold
    ensures Judge(cfg, m, pd, t, td).Keep? ==> Judge(cfg', m, pd, t, td) == Judge(cfg, m, pd, t, td)
    ensures Judge(cfg', m, pd, t, td).Fail? <==> Judge(cfg, m, pd, t, td).Fail?
  {
  }

  /**
   * Over the same targets, a filter with looser thresholds keeps every
   * target a stricter one keeps, with the same score.
   */
  lemma LooserFilterKeepsMore(crates: map<Name, Crate>, cfg: Config, cfg': Config, m: Metrics, package: Name,
                              ts: seq<Name>, kept: map<Name, Score>, kept': map<Name, Score>)
    requires package in crates && forall t :: t in ts ==> t in crates
    requires cfg.levenshteinThreshold <= cfg'.levenshteinThreshold
    requires cfg'.similarityThreshold <= cfg.similarityThreshold
    requires KeptFrom(crates, cfg, m, package, ts, kept) && KeptFrom(crates, cfg', m, package, ts, kept')
    ensures forall t :: t in kept ==> t in kept' && kept'[t] == kept[t]
  {
    forall t | t in kept ensures t in kept' && kept'[t] == kept[t] {
      LooserThresholdsKeepMore(cfg, cfg', m, crates[package].description, t, crates[t].description);
    }
  }

  /** `list(set(xs))`: each element of `xs` once, in the (unspecified) order the set yields them. */
  method ListOfSet(xs: seq<Name>) returns (r: seq<Name>)
    ensures forall x :: x in r <==> x in xs
    ensures forall i, j :: 0 <= i < j < |r| ==> r[i] != r[j]
  {
    var rest := set x | x in xs;
    r := [];
    while rest != {}
      invariant forall x :: x in r ==> x in xs && x !in rest
      invariant forall x :: x in xs ==> x in r || x in rest
      invariant forall x :: x in rest ==> x in xs
      invariant forall i, j :: 0 <= i < j < |r| ==> r[i] != r[j]
      decreases |rest|
    {
      var x :| x in rest;
      r := r + [x];
      rest := rest - {x};
    }
  }

  /** Everything the seven rules return for `name`, concatenated in the order they are called. */
  function SignalOutputs(reg: Registry, name: Name): seq<Name>
    requires Valid(reg) && name in reg.crates
  {
    KeepTargets(reg, name, RepeatedCandidates(name, |name|))
    + KeepTargets(reg, name, OmittedCandidates(name))
    + KeepTargets(reg, name, AllSwaps(name))
    + KeepTargets(reg, name, WordCandidates(name))
    + KeepTargets(reg, name, ReplacementsBefore(name, |name|, TYPOS))
    + VersionNumbers(reg, name)
    + Bitflips(reg, name)
  }

  /**
   * The candidates of the seven rules: a popular name by other authors that
   * one of the five edit rules or the version rule derives from `name`, or a
   * name the bit-flip index lists for `name` (which skips the author check).
   */
  lemma SignalOutputsAre(reg: Registry, name: Name, s: Name)
    requires Valid(reg) && name in reg.crates
    ensures s in SignalOutputs(reg, name) <==>
      || (IsTarget(reg, name, s)
          && (|| IsRepeatRemoval(name, s)
              || (|name| >= 4 && IsAllowedInsertion(name, s))
              || IsAdjacentSwap(name, s)
              || (('-' in name || '_' in name) && |Tokens(name)| <= 8 && IsWordReordering(name, s))
              || IsTypo(name, s, TYPOS)
              || VersionStem(name) == Some(s)))
      || s in Bitflips(reg, name)
  {
    var target := IsTarget(reg, name, s);
    assert s in KeepTargets(reg, name, RepeatedCandidates(name, |name|)) <==> target && IsRepeatRemoval(name, s) by {
      RepeatedTargets(reg, name, true);
    }
    assert s in KeepTargets(reg, name, OmittedCandidates(name))
        <==> target && |name| >= 4 && IsAllowedInsertion(name, s) by {
      OmittedTargets(reg, name, true);
    }
    assert s in KeepTargets(reg, name, AllSwaps(name)) <==> target && IsAdjacentSwap(name, s) by {
      SwapTargets(reg, name, true);
    }
    assert s in KeepTargets(reg, name, WordCandidates(name))
        <==> target && ('-' in name || '_' in name) && |Tokens(name)| <= 8 && IsWordReordering(name, s) by {
      WordTargets(reg, name, true);
    }
    assert s in KeepTargets(reg, name, ReplacementsBefore(name, |name|, TYPOS)) <==> target && IsTypo(name, s, TYPOS) by {
      TypoTargets(reg, name, true);
    }
  }

  /** Every candidate is a popular name. */
  lemma SignalOutputsPopular(reg: Registry, name: Name)
    requires Valid(reg) && name in reg.crates
    ensures forall s :: s in SignalOutputs(reg, name) ==> s in reg.popular
  {
    var parts := [RepeatedCandidates(name, |name|), OmittedCandidates(name), AllSwaps(name),
                  WordCandidates(name), ReplacementsBefore(name, |name|, TYPOS)];
    forall k | 0 <= k < |parts| ensures forall s :: s in KeepTargets(reg, name, parts[k]) ==> s in reg.popular {
      KeepTargetsAre(reg, name, parts[k]);
    }
    assert forall s :: s in SignalOutputs(reg, name) ==>
      s in KeepTargets(reg, name, parts[0]) || s in KeepTargets(reg, name, parts[1])
      || s in KeepTargets(reg, name, parts[2]) || s in KeepTargets(reg, name, parts[3])
      || s in KeepTargets(reg, name, parts[4]) || s in VersionNumbers(reg, name) || s in Bitflips(reg, name);
  }

  /** The seven rule calls of `get_typosquatting_targets`, each with `return_all` at its default. */
  method CollectSignals(reg: Registry, name: Name) returns (found: seq<Name>)
    requires Valid(reg) && name in reg.crates
    ensures found == SignalOutputs(reg, name)
  {
    var rs := RepeatedCharacters(reg, name, true);
    assert rs == KeepTargets(reg, name, RepeatedCandidates(name, |name|));
    var os := OmittedChars(reg, name, true);
    assert os == KeepTargets(reg, name, OmittedCandidates(name));
    var ss := SwappedCharacters(reg, name, true);
    assert ss == KeepTargets(reg, name, AllSwaps(name));
    var ws := SwappedWords(reg, name, true);
    assert ws == KeepTargets(reg, name, WordCandidates(name));
    var ts := CommonTypos(reg, name, true);
    assert ts == KeepTargets(reg, name, ReplacementsBefore(name, |name|, TYPOS));
    found := rs + os + ss + ws + ts + VersionNumbers(reg, name) + Bitflips(reg, name);
  }

  /**
   * `get_typosquatting_targets`: nothing for a popular or allowlisted crate;
   * otherwise the candidates of all rules that pass the description filter,
   * with their scores, or the exception the filter raised.
   */
  method GetTyposquattingTargets(reg: Registry, cfg: Config, m: Metrics, name: Name)
    returns (r: Result<map<Name, Score>>)
    requires Valid(reg) && name in reg.crates
    ensures name in reg.popular || Allowlisted(reg.crates[name]) ==> r == Ok(map[])
    ensures r.Ok? ==> forall t :: t in r.value ==> t in reg.popular && t != name
    ensures !(name in reg.popular || Allowlisted(reg.crates[name])) ==>
      && (forall t :: t in SignalOutputs(reg, name) ==> t in reg.crates)
      && (r.Err? <==> exists t :: t in SignalOutputs(reg, name) && VerdictOf(reg.crates, cfg, m, name, t).Fail?)
      && (r.Ok? ==> KeptFrom(reg.crates, cfg, m, name, SignalOutputs(reg, name), r.value))
  {
    if name in reg.popular {
      return Ok(map[]);
    }
    if Allowlisted(reg.crates[name]) {
      return Ok(map[]);
    }
    var found := CollectSignals(reg, name);
    SignalOutputsPopular(reg, name);
    var targets := ListOfSet(found);
    r := FilterTargets(reg.crates, cfg, m, name, targets);
    if r.Err? {
      var i :| 0 <= i < |targets| && VerdictOf(reg.crates, cfg, m, name, targets[i]).Fail?;
      assert targets[i] in found;
    }
    if exists t :: t in found && VerdictOf(reg.crates, cfg, m, name, t).Fail? {
      var t :| t in found && VerdictOf(reg.crates, cfg, m, name, t).Fail?;
      var i :| 0 <= i < |targets| && targets[i] == t;
    }
  }
}
