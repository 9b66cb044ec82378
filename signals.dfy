/**
 * The six rule functions of the detector. Each works backwards from a
 * suspect name: it applies one kind of edit at every position, and keeps the
 * results that are popular, differ from the suspect and share no author with
 * it. Each loop is proved against a function listing the candidates it tries,
 * in the order it tries them; a lemma then says which strings those are.
 */
module Signals {
  import opened Tables
  import opened Crates
  import opened Edits
  import opened Words
  import opened Version

  /** One more candidate of the current row joins the list of candidates tried so far. */
  lemma TakeOneMore(before: seq<string>, row: seq<string>, j: nat)
    requires j < |row|
    ensures before + row[..j + 1] == before + row[..j] + [row[j]]
  {
    assert row[..j + 1] == row[..j] + [row[j]];
  }

  // ---------------------------------------------------------------------
  // repeated_characters
  // ---------------------------------------------------------------------

  /** The deletions tried at positions before `k`: the first of two equal neighbours. */
  function RepeatedCandidates(n: string, k: nat): seq<string>
    requires k <= |n|
  {
    if k == 0 then []
    else RepeatedCandidates(n, k - 1)
         + (if k < |n| && n[k - 1] == n[k] then [DeleteAt(n, k - 1)] else [])
  }

  /** `s` is `n` with one of two equal adjacent characters removed. */
  predicate IsRepeatRemoval(n: string, s: string) {
    exists i :: 0 <= i < |n| - 1 && RemovedRepeatAt(n, i, s)
  }

  /** Positions `i` and `i + 1` of `n` hold the same character, and `s` is `n` without the first. */
  predicate RemovedRepeatAt(n: string, i: nat, s: string)
    requires i < |n| - 1
  {
    n[i] == n[i + 1] && s == DeleteAt(n, i)
  }

  lemma {:induction false} RepeatedCandidatesAre(n: string, k: nat, s: string)
    requires k <= |n|
    ensures s in RepeatedCandidates(n, k)
        <==> exists i :: 0 <= i < k && i < |n| - 1 && RemovedRepeatAt(n, i, s)
  {
    if k > 0 {
      RepeatedCandidatesAre(n, k - 1, s);
      if s in RepeatedCandidates(n, k - 1) {
        var i :| 0 <= i < k - 1 && i < |n| - 1 && RemovedRepeatAt(n, i, s);
      }
      if s in RepeatedCandidates(n, k) && s !in RepeatedCandidates(n, k - 1) {
        assert RemovedRepeatAt(n, k - 1, s);
      }
      if exists i :: 0 <= i < k && i < |n| - 1 && RemovedRepeatAt(n, i, s) {
        var i :| 0 <= i < k && i < |n| - 1 && RemovedRepeatAt(n, i, s);
        if i < k - 1 {
          assert s in RepeatedCandidates(n, k - 1);
        } else {
          assert RepeatedCandidates(n, k) == RepeatedCandidates(n, k - 1) + [DeleteAt(n, k - 1)];
        }
      }
    }
  }

  /** What `repeated_characters` returns: popular repeat removals by other authors, all of them when asked for. */
  lemma RepeatedTargets(reg: Registry, name: Name, returnAll: bool)
    requires Valid(reg) && name in reg.crates
    ensures var r := Select(reg, KeepTargets(reg, name, RepeatedCandidates(name, |name|)), returnAll);
      && (forall s :: s in r ==> IsTarget(reg, name, s) && IsRepeatRemoval(name, s))
      && (forall s :: s in r ==> |s| == |name| - 1)
      && (returnAll ==> forall s :: IsTarget(reg, name, s) && IsRepeatRemoval(name, s) ==> s in r)
  {
    var r := Select(reg, KeepTargets(reg, name, RepeatedCandidates(name, |name|)), returnAll);
    SelectTargets(reg, name, RepeatedCandidates(name, |name|), returnAll);
    forall s ensures s in RepeatedCandidates(name, |name|) <==> IsRepeatRemoval(name, s) {
      RepeatedCandidatesAre(name, |name|, s);
    }
    forall s | s in r ensures |s| == |name| - 1 {
      var i :| 0 <= i < |name| - 1 && RemovedRepeatAt(name, i, s);
    }
  }

  /** `repeated_characters`. */
  method RepeatedCharacters(reg: Registry, name: Name, returnAll: bool) returns (r: seq<Name>)
    requires Valid(reg) && name in reg.crates
    ensures r == Select(reg, KeepTargets(reg, name, RepeatedCandidates(name, |name|)), returnAll)
  {
    var found: seq<Name> := [];
    var i := 0;
    while i < |name|
      invariant 0 <= i <= |name|
      invariant found == KeepTargets(reg, name, RepeatedCandidates(name, i))
    {
      if i + 1 < |name| && name[i + 1] == name[i] {
        var s := name[..i] + name[i + 1..];
        assert RepeatedCandidates(name, i + 1) == RepeatedCandidates(name, i) + [s];
        KeepTargetsAppend(reg, name, RepeatedCandidates(name, i), s);
        if IsTarget(reg, name, s) {
          found := found + [s];
        }
      } else {
        assert RepeatedCandidates(name, i + 1) == RepeatedCandidates(name, i);
      }
      i := i + 1;
    }
    r := Select(reg, found, returnAll);
  }

  // ---------------------------------------------------------------------
  // omitted_chars
  // ---------------------------------------------------------------------

  /** Each character of `cs` inserted before position `i`, in order. */
  function Insertions(n: string, i: nat, cs: string): seq<string>
    requires i <= |n|
  {
    seq(|cs|, j requires 0 <= j < |cs| => InsertAt(n, i, cs[j]))
  }

  /** The insertions tried at positions before `k`. */
  function InsertionsBefore(n: string, k: nat, cs: string): seq<string>
    requires k <= |n| + 1
  {
    if k == 0 then [] else InsertionsBefore(n, k - 1, cs) + Insertions(n, k - 1, cs)
  }

  /** What `omitted_chars` tries: nothing for names shorter than 4. */
  function OmittedCandidates(n: string): seq<string> {
    if |n| < 4 then [] else InsertionsBefore(n, |n| + 1, ALLOWED_CHARACTERS)
  }

  /** `s` is `n` with one character of `ALLOWED_CHARACTERS` inserted somewhere. */
  predicate IsAllowedInsertion(n: string, s: string) {
    exists i, c :: 0 <= i <= |n| && c in ALLOWED_CHARACTERS && s == InsertAt(n, i, c)
  }

  /** `s` is `n` with some character of `cs` inserted before position `i`. */
  predicate InsertedAt(n: string, i: nat, cs: string, s: string)
    requires i <= |n|
  {
    exists c :: c in cs && s == InsertAt(n, i, c)
  }

  lemma InsertionsAre(n: string, i: nat, cs: string, s: string)
    requires i <= |n|
    ensures s in Insertions(n, i, cs) <==> InsertedAt(n, i, cs, s)
  {
    var row := Insertions(n, i, cs);
    if s in row {
      var j :| 0 <= j < |row| && row[j] == s;
      assert s == InsertAt(n, i, cs[j]);
    }
    if InsertedAt(n, i, cs, s) {
      var c :| c in cs && s == InsertAt(n, i, c);
      var j :| 0 <= j < |cs| && cs[j] == c;
      assert row[j] == s;
    }
  }

  lemma {:induction false} InsertionsBeforeAre(n: string, k: nat, cs: string, s: string)
    requires k <= |n| + 1
    ensures s in InsertionsBefore(n, k, cs) <==> exists i :: 0 <= i < k && InsertedAt(n, i, cs, s)
  {
    if k > 0 {
      InsertionsBeforeAre(n, k - 1, cs, s);
      InsertionsAre(n, k - 1, cs, s);
      assert InsertionsBefore(n, k, cs) == InsertionsBefore(n, k - 1, cs) + Insertions(n, k - 1, cs);
      if s in InsertionsBefore(n, k - 1, cs) {
        var i :| 0 <= i < k - 1 && InsertedAt(n, i, cs, s);
      }
      if exists i :: 0 <= i < k && InsertedAt(n, i, cs, s) {
        var i :| 0 <= i < k && InsertedAt(n, i, cs, s);
        if i < k - 1 {
          assert s in InsertionsBefore(n, k - 1, cs);
        }
      }
    }
  }

  lemma OmittedCandidatesAre(n: string, s: string)
    requires |n| >= 4
    ensures s in OmittedCandidates(n) <==> IsAllowedInsertion(n, s)
  {
    InsertionsBeforeAre(n, |n| + 1, ALLOWED_CHARACTERS, s);
    if IsAllowedInsertion(n, s) {
      var i, c :| 0 <= i <= |n| && c in ALLOWED_CHARACTERS && s == InsertAt(n, i, c);
      assert InsertedAt(n, i, ALLOWED_CHARACTERS, s);
    }
  }

  /** What `omitted_chars` returns: popular insertions by other authors, all of them when asked for. */
  lemma OmittedTargets(reg: Registry, name: Name, returnAll: bool)
    requires Valid(reg) && name in reg.crates
    ensures var r := Select(reg, KeepTargets(reg, name, OmittedCandidates(name)), returnAll);
      && (forall s :: s in r ==> IsTarget(reg, name, s) && IsAllowedInsertion(name, s))
      && (returnAll && |name| >= 4 ==>
            forall s :: IsTarget(reg, name, s) && IsAllowedInsertion(name, s) ==> s in r)
  {
    SelectTargets(reg, name, OmittedCandidates(name), returnAll);
    if |name| >= 4 {
      forall s ensures s in OmittedCandidates(name) <==> IsAllowedInsertion(name, s) {
        OmittedCandidatesAre(name, s);
      }
    }
  }

  /** Every insertion tried is one character longer. */
  lemma {:induction false} InsertionsLonger(n: string, k: nat, cs: string)
    requires k <= |n| + 1
    ensures forall s :: s in InsertionsBefore(n, k, cs) ==> |s| == |n| + 1
  {
    if k > 0 {
      InsertionsLonger(n, k - 1, cs);
    }
  }

  /** Every name `omitted_chars` returns is one character longer than the suspect. */
  lemma OmittedLonger(reg: Registry, name: Name, returnAll: bool)
    requires Valid(reg) && name in reg.crates
    ensures var r := Select(reg, KeepTargets(reg, name, OmittedCandidates(name)), returnAll);
      forall s :: s in r ==> |s| == |name| + 1
  {
    SelectTargets(reg, name, OmittedCandidates(name), returnAll);
    InsertionsLonger(name, |name| + 1, ALLOWED_CHARACTERS);
  }

  /**
   * The inner loop of `omitted_chars`: each character of `cs` (the allowed
   * characters) inserted before position `i` in turn, each result that
   * passes the guard appended to `found`.
   */
  method TryInsertions(reg: Registry, name: Name, i: nat, cs: string, ghost before: seq<Name>, found0: seq<Name>)
    returns (found: seq<Name>)
    requires Valid(reg) && name in reg.crates && i <= |name|
    requires found0 == KeepTargets(reg, name, before)
    ensures found == KeepTargets(reg, name, before + Insertions(name, i, cs))
  {
    ghost var row := Insertions(name, i, cs);
    assert before + row[..0] == before;
    found := found0;
    var j := 0;
    while j < |cs|
      invariant 0 <= j <= |cs|
      invariant found == KeepTargets(reg, name, before + row[..j])
    {
      var s := InsertAt(name, i, cs[j]);
      assert row[j] == s;
      TakeOneMore(before, row, j);
      KeepTargetsAppend(reg, name, before + row[..j], s);
      if IsTarget(reg, name, s) {
        found := found + [s];
      }
      j := j + 1;
    }
    assert row[..j] == row;
  }

  /** `omitted_chars`. */
  method OmittedChars(reg: Registry, name: Name, returnAll: bool) returns (r: seq<Name>)
    requires Valid(reg) && name in reg.crates
    ensures r == Select(reg, KeepTargets(reg, name, OmittedCandidates(name)), returnAll)
    ensures |name| < 4 ==> r == []
  {
    var found: seq<Name> := [];
    if |name| < 4 {
      return found;
    }
    var i := 0;
    while i < |name| + 1
      invariant 0 <= i <= |name| + 1
      invariant found == KeepTargets(reg, name, InsertionsBefore(name, i, ALLOWED_CHARACTERS))
    {
      found := TryInsertions(reg, name, i, ALLOWED_CHARACTERS, InsertionsBefore(name, i, ALLOWED_CHARACTERS), found);
      i := i + 1;
    }
    r := Select(reg, found, returnAll);
  }

  // ---------------------------------------------------------------------
  // swapped_characters
  // ---------------------------------------------------------------------

  /** The swaps tried at positions before `k`. */
  function SwapCandidates(n: string, k: nat): seq<string>
    requires k == 0 || k < |n|
  {
    if k == 0 then [] else SwapCandidates(n, k - 1) + [SwapAt(n, k - 1)]
  }

  /** Every adjacent pair swapped, left to right. */
  function AllSwaps(n: string): seq<string> {
    SwapCandidates(n, if |n| == 0 then 0 else |n| - 1)
  }

  /** `s` is `n` with two adjacent characters exchanged. */
  predicate IsAdjacentSwap(n: string, s: string) {
    exists i :: 0 <= i < |n| - 1 && SwappedAt(n, i, s)
  }

  /** `s` is `n` with positions `i` and `i + 1` exchanged. */
  predicate SwappedAt(n: string, i: nat, s: string)
    requires i + 1 < |n|
  {
    s == SwapAt(n, i)
  }

  lemma {:induction false} SwapCandidatesAre(n: string, k: nat, s: string)
    requires k == 0 || k < |n|
    ensures s in SwapCandidates(n, k) <==> exists i :: 0 <= i < k && SwappedAt(n, i, s)
  {
    if k > 0 {
      SwapCandidatesAre(n, k - 1, s);
      if s in SwapCandidates(n, k) && s !in SwapCandidates(n, k - 1) {
        assert SwappedAt(n, k - 1, s);
      }
      if exists i :: 0 <= i < k && SwappedAt(n, i, s) {
        var i :| 0 <= i < k && SwappedAt(n, i, s);
        if i < k - 1 {
          assert s in SwapCandidates(n, k - 1);
        }
      }
    }
  }

  /** The in-place exchange on a fresh character list, then `''.join`. */
  method SwapAdjacent(n: string, i: nat) returns (s: string)
    requires i + 1 < |n|
    ensures s == SwapAt(n, i)
  {
    var a := new char[|n|](k requires 0 <= k < |n| => n[k]);
    var t := a[i];
    a[i] := a[i + 1];
    a[i + 1] := t;
    s := a[..];
    SwapAtExchanges(n, i);
    assert forall k :: 0 <= k < |s| ==> s[k] == SwapAt(n, i)[k];
  }

  /** What `swapped_characters` returns: popular adjacent swaps by other authors, all of them when asked for. */
  lemma SwapTargets(reg: Registry, name: Name, returnAll: bool)
    requires Valid(reg) && name in reg.crates
    ensures var r := Select(reg, KeepTargets(reg, name, AllSwaps(name)), returnAll);
      && (forall s :: s in r ==> IsTarget(reg, name, s) && IsAdjacentSwap(name, s))
      && (forall s :: s in r ==> |s| == |name|)
      && (returnAll ==> forall s :: IsTarget(reg, name, s) && IsAdjacentSwap(name, s) ==> s in r)
  {
    var r := Select(reg, KeepTargets(reg, name, AllSwaps(name)), returnAll);
    SelectTargets(reg, name, AllSwaps(name), returnAll);
    forall s ensures s in AllSwaps(name) <==> IsAdjacentSwap(name, s) {
      SwapCandidatesAre(name, if |name| == 0 then 0 else |name| - 1, s);
    }
    forall s | s in r ensures |s| == |name| {
      var i :| 0 <= i < |name| - 1 && SwappedAt(name, i, s);
    }
  }

  /** `swapped_characters`. */
  method SwappedCharacters(reg: Registry, name: Name, returnAll: bool) returns (r: seq<Name>)
    requires Valid(reg) && name in reg.crates
    ensures r == Select(reg, KeepTargets(reg, name, AllSwaps(name)), returnAll)
  {
    var found: seq<Name> := [];
    var i := 0;
    while i < |name| - 1
      invariant 0 <= i && (i == 0 || i < |name|)
      invariant found == KeepTargets(reg, name, SwapCandidates(name, i))
    {
      var s := SwapAdjacent(name, i);
      KeepTargetsAppend(reg, name, SwapCandidates(name, i), s);
      if IsTarget(reg, name, s) {
        found := found + [s];
      }
      i := i + 1;
    }
    assert i == if |name| == 0 then 0 else |name| - 1;
    r := Select(reg, found, returnAll);
  }

  // ---------------------------------------------------------------------
  // swapped_words
  // ---------------------------------------------------------------------

  /** One ordering of the words joined with each delimiter, in `DELIMITERS` order. */
  function Joinings(p: seq<string>): seq<string> {
    seq(|DELIMITERS|, j requires 0 <= j < |DELIMITERS| => Join(DELIMITERS[j], p))
  }

  /** The joinings of the orderings before position `k`. */
  function JoiningsBefore(ps: seq<seq<string>>, k: nat): seq<string>
    requires k <= |ps|
  {
    if k == 0 then [] else JoiningsBefore(ps, k - 1) + Joinings(ps[k - 1])
  }

  /** What `swapped_words` tries: nothing without a delimiter or with more than 8 words. */
  function WordCandidates(n: string): seq<string> {
    if !('-' in n || '_' in n) then []
    else
      var tokens := Tokens(n);
      if |tokens| > 8 then []
      else JoiningsBefore(Permutations(tokens), |Permutations(tokens)|)
  }

  /** `s` is some rearrangement of the words of `n` joined by `''`, `-` or `_`. */
  ghost predicate IsWordReordering(n: string, s: string) {
    exists d, p :: d in DELIMITERS && multiset(p) == multiset(Tokens(n)) && s == Join(d, p)
  }

  /** `s` is the ordering `p` joined by one of the delimiters. */
  predicate JoinedFrom(p: seq<string>, s: string) {
    exists d :: d in DELIMITERS && s == Join(d, p)
  }

  lemma JoiningsAre(p: seq<string>, s: string)
    ensures s in Joinings(p) <==> JoinedFrom(p, s)
  {
    var row := Joinings(p);
    if s in row {
      var j :| 0 <= j < |row| && row[j] == s;
      assert s == Join(DELIMITERS[j], p);
    }
    if JoinedFrom(p, s) {
      var d :| d in DELIMITERS && s == Join(d, p);
      var j :| 0 <= j < |DELIMITERS| && DELIMITERS[j] == d;
      assert row[j] == s;
    }
  }

  lemma {:induction false} JoiningsBeforeAre(ps: seq<seq<string>>, k: nat, s: string)
    requires k <= |ps|
    ensures s in JoiningsBefore(ps, k) <==> exists i :: 0 <= i < k && JoinedFrom(ps[i], s)
  {
    if k > 0 {
      JoiningsBeforeAre(ps, k - 1, s);
      JoiningsAre(ps[k - 1], s);
      assert JoiningsBefore(ps, k) == JoiningsBefore(ps, k - 1) + Joinings(ps[k - 1]);
      if s in JoiningsBefore(ps, k - 1) {
        var i :| 0 <= i < k - 1 && JoinedFrom(ps[i], s);
      }
      if exists i :: 0 <= i < k && JoinedFrom(ps[i], s) {
        var i :| 0 <= i < k && JoinedFrom(ps[i], s);
        if i < k - 1 {
          assert s in JoiningsBefore(ps, k - 1);
        }
      }
    }
  }

  lemma WordCandidatesAre(n: string, s: string)
    ensures s in WordCandidates(n)
        <==> ('-' in n || '_' in n) && |Tokens(n)| <= 8 && IsWordReordering(n, s)
  {
    if ('-' in n || '_' in n) && |Tokens(n)| <= 8 {
      var tokens := Tokens(n);
      var ps := Permutations(tokens);
      JoiningsBeforeAre(ps, |ps|, s);
      if s in WordCandidates(n) {
        var i :| 0 <= i < |ps| && JoinedFrom(ps[i], s);
        var d :| d in DELIMITERS && s == Join(d, ps[i]);
        PermutationsAreRearrangements(tokens, ps[i]);
      }
      if IsWordReordering(n, s) {
        var d, p :| d in DELIMITERS && multiset(p) == multiset(tokens) && s == Join(d, p);
        RearrangementsArePermutations(tokens, p);
        var i :| 0 <= i < |ps| && ps[i] == p;
        assert JoinedFrom(ps[i], s);
      }
    }
  }

  /**
   * What `swapped_words` returns: popular rearrangements of the words by
   * other authors, all of them when asked for, and nothing for a name without
   * a delimiter or with more than 8 words.
   */
  lemma WordTargets(reg: Registry, name: Name, returnAll: bool)
    requires Valid(reg) && name in reg.crates
    ensures var r := Select(reg, KeepTargets(reg, name, WordCandidates(name)), returnAll);
      && (!('-' in name || '_' in name) || |Tokens(name)| > 8 ==> r == [])
      && (forall s :: s in r ==> IsTarget(reg, name, s) && IsWordReordering(name, s))
      && (returnAll && ('-' in name || '_' in name) && |Tokens(name)| <= 8 ==>
            forall s :: IsTarget(reg, name, s) && IsWordReordering(name, s) ==> s in r)
  {
    SelectTargets(reg, name, WordCandidates(name), returnAll);
    forall s ensures s in WordCandidates(name)
        <==> ('-' in name || '_' in name) && |Tokens(name)| <= 8 && IsWordReordering(name, s) {
      WordCandidatesAre(name, s);
    }
  }

  /** The two loops of `swapped_words`: each ordering joined by each delimiter, guarded, in order. */
  method TryOrderings(reg: Registry, name: Name, ps: seq<seq<string>>) returns (found: seq<Name>)
    requires Valid(reg) && name in reg.crates
    ensures found == KeepTargets(reg, name, JoiningsBefore(ps, |ps|))
  {
    found := [];
    var i := 0;
    while i < |ps|
      invariant 0 <= i <= |ps|
      invariant found == KeepTargets(reg, name, JoiningsBefore(ps, i))
    {
      var p := ps[i];
      ghost var before := JoiningsBefore(ps, i);
      ghost var row := Joinings(p);
      assert before + row[..0] == before;
      var j := 0;
      while j < |DELIMITERS|
        invariant 0 <= j <= |DELIMITERS|
        invariant found == KeepTargets(reg, name, before + row[..j])
      {
        var s := Join(DELIMITERS[j], p);
        assert row[j] == s;
        TakeOneMore(before, row, j);
        KeepTargetsAppend(reg, name, before + row[..j], s);
        if IsTarget(reg, name, s) {
          found := found + [s];
        }
        j := j + 1;
      }
      assert row[..j] == row;
      assert JoiningsBefore(ps, i + 1) == before + row;
      i := i + 1;
    }
  }

  /** `swapped_words`. */
  method SwappedWords(reg: Registry, name: Name, returnAll: bool) returns (r: seq<Name>)
    requires Valid(reg) && name in reg.crates
    ensures r == Select(reg, KeepTargets(reg, name, WordCandidates(name)), returnAll)
  {
    var found: seq<Name> := [];
    if !('-' in name || '_' in name) {
      return found;
    }
    var tokens := Tokens(name);
    if |tokens| > 8 {
      return found;
    }
    var perms := Permutations(tokens);
    found := TryOrderings(reg, name, perms);
    r := Select(reg, found, returnAll);
  }

  // ---------------------------------------------------------------------
  // common_typos
  // ---------------------------------------------------------------------

  /** Position `i` replaced by each of its entries in `typos`; nothing if it has none. */
  function Replacements(n: string, i: nat, typos: map<char, seq<string>>): seq<string>
    requires i < |n|
  {
    if n[i] in typos then
      seq(|typos[n[i]]|, j requires 0 <= j < |typos[n[i]]| => ReplaceAt(n, i, typos[n[i]][j]))
    else []
  }

  /** The row of replacements at a position with typos, entry by entry. */
  lemma ReplacementsRow(n: string, i: nat, typos: map<char, seq<string>>)
    requires i < |n| && n[i] in typos
    ensures |Replacements(n, i, typos)| == |typos[n[i]]|
    ensures forall j :: 0 <= j < |typos[n[i]]| ==> Replacements(n, i, typos)[j] == ReplaceAt(n, i, typos[n[i]][j])
  {
  }

  /** The replacements tried at positions before `k`. */
  function ReplacementsBefore(n: string, k: nat, typos: map<char, seq<string>>): seq<string>
    requires k <= |n|
  {
    if k == 0 then [] else ReplacementsBefore(n, k - 1, typos) + Replacements(n, k - 1, typos)
  }

  /**
   * `s` is `n` with one character that has an entry in `typos` replaced by
   * one of its typos. The detector uses it with `typos == TYPOS`.
   */
  predicate IsTypo(n: string, s: string, typos: map<char, seq<string>>) {
    exists i, t :: 0 <= i < |n| && n[i] in typos && t in typos[n[i]] && s == ReplaceAt(n, i, t)
  }

  /** `s` is `n` with position `i` replaced by one of its typos. */
  predicate ReplacedAt(n: string, i: nat, s: string, typos: map<char, seq<string>>)
    requires i < |n|
  {
    n[i] in typos && exists t :: t in typos[n[i]] && s == ReplaceAt(n, i, t)
  }

  lemma ReplacementsAre(n: string, i: nat, s: string, typos: map<char, seq<string>>)
    requires i < |n|
    ensures s in Replacements(n, i, typos) <==> ReplacedAt(n, i, s, typos)
  {
    var row := Replacements(n, i, typos);
    if s in row {
      var j :| 0 <= j < |row| && row[j] == s;
      assert s == ReplaceAt(n, i, typos[n[i]][j]);
    }
    if ReplacedAt(n, i, s, typos) {
      var t :| t in typos[n[i]] && s == ReplaceAt(n, i, t);
      var j :| 0 <= j < |typos[n[i]]| && typos[n[i]][j] == t;
      assert row[j] == s;
    }
  }

  lemma {:induction false} ReplacementsBeforeAre(n: string, k: nat, s: string, typos: map<char, seq<string>>)
    requires k <= |n|
    ensures s in ReplacementsBefore(n, k, typos) <==> exists i :: 0 <= i < k && ReplacedAt(n, i, s, typos)
  {
    if k > 0 {
      ReplacementsBeforeAre(n, k - 1, s, typos);
      ReplacementsAre(n, k - 1, s, typos);
      if s in ReplacementsBefore(n, k - 1, typos) {
        var i :| 0 <= i < k - 1 && ReplacedAt(n, i, s, typos);
      }
      if exists i :: 0 <= i < k && ReplacedAt(n, i, s, typos) {
        var i :| 0 <= i < k && ReplacedAt(n, i, s, typos);
        if i < k - 1 {
          assert s in ReplacementsBefore(n, k - 1, typos);
        }
      }
    }
  }

  lemma TypoCandidatesAre(n: string, s: string, typos: map<char, seq<string>>)
    ensures s in ReplacementsBefore(n, |n|, typos) <==> IsTypo(n, s, typos)
  {
    ReplacementsBeforeAre(n, |n|, s, typos);
    if IsTypo(n, s, typos) {
      var i, t :| 0 <= i < |n| && n[i] in typos && t in typos[n[i]] && s == ReplaceAt(n, i, t);
      assert ReplacedAt(n, i, s, typos);
    }
  }

  /** One typo from `TYPOS` changes the length by at most one. */
  lemma CommonTypoLength(n: string, s: string)
    requires IsTypo(n, s, TYPOS)
    ensures |n| - 1 <= |s| <= |n| + 1
  {
    var i, t :| 0 <= i < |n| && n[i] in TYPOS && t in TYPOS[n[i]] && s == ReplaceAt(n, i, t);
    TypoReplacementsShort(n[i], t);
  }

  /**
   * What `common_typos` returns: popular one-typo variants by other authors,
   * all of them when asked for; each differs in length by at most one.
   */
  lemma TypoTargets(reg: Registry, name: Name, returnAll: bool)
    requires Valid(reg) && name in reg.crates
    ensures var r := Select(reg, KeepTargets(reg, name, ReplacementsBefore(name, |name|, TYPOS)), returnAll);
      && (forall s :: s in r ==> IsTarget(reg, name, s) && IsTypo(name, s, TYPOS))
      && (forall s :: s in r ==> |name| - 1 <= |s| <= |name| + 1)
      && (returnAll ==> forall s :: IsTarget(reg, name, s) && IsTypo(name, s, TYPOS) ==> s in r)
  {
    var r := Select(reg, KeepTargets(reg, name, ReplacementsBefore(name, |name|, TYPOS)), returnAll);
    SelectTargets(reg, name, ReplacementsBefore(name, |name|, TYPOS), returnAll);
    forall s ensures s in ReplacementsBefore(name, |name|, TYPOS) <==> IsTypo(name, s, TYPOS) {
      TypoCandidatesAre(name, s, TYPOS);
    }
    forall s | s in r ensures |name| - 1 <= |s| <= |name| + 1 {
      CommonTypoLength(name, s);
    }
  }

  /**
   * The inner loop of `common_typos`: position `i` replaced by each of its
   * typos in turn, each result that passes the guard appended to `found`.
   */
  method TryTypos(reg: Registry, name: Name, i: nat, typos: map<char, seq<string>>,
                  ghost before: seq<Name>, found0: seq<Name>) returns (found: seq<Name>)
    requires Valid(reg) && name in reg.crates && i < |name| && name[i] in typos
    requires found0 == KeepTargets(reg, name, before)
    ensures found == KeepTargets(reg, name, before + Replacements(name, i, typos))
  {
    ghost var row := Replacements(name, i, typos);
    var ts := typos[name[i]];
    ReplacementsRow(name, i, typos);
    assert before + row[..0] == before;
    found := found0;
    var j := 0;
    while j < |ts|
      invariant 0 <= j <= |ts|
      invariant found == KeepTargets(reg, name, before + row[..j])
    {
      var s := ReplaceAt(name, i, ts[j]);
      assert row[j] == s;
      TakeOneMore(before, row, j);
      KeepTargetsAppend(reg, name, before + row[..j], s);
      if IsTarget(reg, name, s) {
        found := found + [s];
      }
      j := j + 1;
    }
    assert row[..j] == row;
  }

  /**
   * The outer loop of `common_typos`, over any typo table: the guarded
   * one-typo variants of `name`, in the order they are tried.
   */
  method ApplyTypos(reg: Registry, name: Name, typos: map<char, seq<string>>) returns (found: seq<Name>)
    requires Valid(reg) && name in reg.crates
    ensures found == KeepTargets(reg, name, ReplacementsBefore(name, |name|, typos))
  {
    found := [];
    var i := 0;
    while i < |name|
      invariant 0 <= i <= |name|
      invariant found == KeepTargets(reg, name, ReplacementsBefore(name, i, typos))
    {
      ghost var before := ReplacementsBefore(name, i, typos);
      var c := name[i];
      if c in typos {
        found := TryTypos(reg, name, i, typos, before, found);
      } else {
        assert ReplacementsBefore(name, i + 1, typos) == before;
      }
      i := i + 1;
    }
  }

  /** `common_typos`. */
  method CommonTypos(reg: Registry, name: Name, returnAll: bool) returns (r: seq<Name>)
    requires Valid(reg) && name in reg.crates
    ensures r == Select(reg, KeepTargets(reg, name, ReplacementsBefore(name, |name|, TYPOS)), returnAll)
  {
    var found := ApplyTypos(reg, name, TYPOS);
    r := Select(reg, found, returnAll);
  }

  // ---------------------------------------------------------------------
  // version_numbers
  // ---------------------------------------------------------------------

  /** `version_numbers`: the regex group, when it passes the guard. */
  function VersionNumbers(reg: Registry, name: Name): (r: seq<Name>)
    requires Valid(reg) && name in reg.crates
    ensures |r| <= 1
    ensures forall s :: s in r ==> IsTarget(reg, name, s)
  {
    match VersionStem(name)
    case Some(s) =>
      if s in reg.popular && !SameAuthor(reg.crates, name, s) && s != name then [s] else []
    case None => []
  }

  /**
   * On a name without a newline, `version_numbers` finds exactly the name
   * with its trailing digits and one optional delimiter stripped, if that
   * passes the guard.
   */
  lemma VersionNumbersStrip(reg: Registry, name: Name, s: Name)
    requires Valid(reg) && name in reg.crates && '\n' !in name
    ensures s in VersionNumbers(reg, name) <==> StripVersion(name) == Some(s) && IsTarget(reg, name, s)
  {
    VersionStemStrips(name);
  }
}
