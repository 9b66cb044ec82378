/**
 * `VERSION_NUMBER_REGEX = ^(.*?)[_-]?\d+$` as Python's `re.match` applies it
 * to a crate name, and the plain reading it implements on names without a
 * newline: drop the trailing digit run, then one `-` or `_` before it.
 */
module Version {
  import opened Tables
  import opened Crates

  /**
   * `[_-]?\d+$` matched against the remainder `r` of the name. Python's `$`
   * matches at the end or just before a final newline.
   */
  predicate TailMatches(r: string) {
    var body := if |r| > 0 && r[|r| - 1] == '\n' then r[..|r| - 1] else r;
    || (|body| > 0 && AllDigits(body))
    || (|body| > 1 && IsDelimiter(body[0]) && AllDigits(body[1..]))
  }

  /**
   * The lazy group `(.*?)` tried at lengths k, k+1, ...: the first length
   * whose remainder matches. `.` does not match a newline, so the group
   * cannot grow past one.
   */
  function StemFrom(name: string, k: nat): Option<string>
    requires k <= |name|
    decreases |name| - k
  {
    if '\n' in name[..k] then None
    else if TailMatches(name[k..]) then Some(name[..k])
    else if k == |name| then None
    else StemFrom(name, k + 1)
  }

  /**
   * The group found is a newline-free prefix whose remainder matches, and no
   * shorter group from `k` on matches; when there is none, no newline-free
   * group from `k` on matches.
   */
  lemma {:induction false} StemFromMatches(name: string, k: nat)
    requires k <= |name|
    ensures var r := StemFrom(name, k);
      && (r.Some? ==> (k <= |r.value| <= |name| && r.value == name[..|r.value|]
                       && '\n' !in r.value && TailMatches(name[|r.value|..])))
      && (r.Some? ==> forall m :: k <= m < |r.value| ==> !TailMatches(name[m..]))
      && (r.None? ==> forall m :: k <= m <= |name| && '\n' !in name[..m] ==> !TailMatches(name[m..]))
    decreases |name| - k
  {
    if '\n' in name[..k] {
      forall m | k <= m <= |name| ensures '\n' in name[..m] {
        var i :| 0 <= i < k && name[..k][i] == '\n';
        assert name[..m][i] == '\n';
      }
    } else if !TailMatches(name[k..]) && k < |name| {
      StemFromMatches(name, k + 1);
    }
  }

  /** `VERSION_NUMBER_REGEX.match(name).group(1)`, or None when the pattern does not match. */
  function VersionStem(name: string): (r: Option<string>)
    ensures r.Some? ==> |r.value| <= |name| && r.value == name[..|r.value|] && '\n' !in r.value
                        && TailMatches(name[|r.value|..])
    ensures r.Some? ==> forall m :: 0 <= m < |r.value| ==> !TailMatches(name[m..])
    ensures r.None? ==> forall m :: 0 <= m <= |name| && '\n' !in name[..m] ==> !TailMatches(name[m..])
  {
    StemFromMatches(name, 0);
    StemFrom(name, 0)
  }

  /** Where the trailing run of digits of `s` starts. */
  function DigitRunStart(s: string): (j: nat)
    ensures j <= |s| && AllDigits(s[j..])
    ensures j > 0 ==> !IsDigit(s[j - 1])
  {
    if s == [] || !IsDigit(s[|s| - 1]) then |s|
    else
      var j := DigitRunStart(s[..|s| - 1]);
      assert s[j..] == s[..|s| - 1][j..] + [s[|s| - 1]];
      assert j > 0 ==> s[..|s| - 1][j - 1] == s[j - 1];
      j
  }

  /** The intended reading: strip the trailing digit run, then one optional delimiter. */
  function StripVersion(name: string): (r: Option<string>)
    ensures r.None? <==> name == [] || !IsDigit(name[|name| - 1])
    ensures r.Some? ==> exists k :: 0 <= k < |name| && r.value == name[..k] && TailMatches(name[k..])
  {
    var j := DigitRunStart(name);
    if j == |name| then None
    else if j > 0 && IsDelimiter(name[j - 1]) then
      assert name[j - 1..][1..] == name[j..];
      Some(name[..j - 1])
    else Some(name[..j])
  }

  /** On a newline-free name no remainder before the strip point matches `[_-]?\d+$`. */
  lemma TailFailsBefore(name: string, m: nat)
    requires '\n' !in name && m <= |name|
    requires var j := DigitRunStart(name);
      m < (if j < |name| && j > 0 && IsDelimiter(name[j - 1]) then j - 1 else j)
    ensures !TailMatches(name[m..])
  {
  }

  /**
   * On names without a newline, the regex's group is exactly the name with
   * its trailing digit run and one optional delimiter stripped.
   */
  lemma VersionStemStrips(name: string)
    requires '\n' !in name
    ensures VersionStem(name) == StripVersion(name)
  {
    var j := DigitRunStart(name);
    assert forall m :: 0 <= m <= |name| ==> '\n' !in name[..m];
    StemFromMatches(name, 0);
    var v := VersionStem(name);
    if j == |name| {
      if v.Some? {
        TailFailsBefore(name, |v.value|);
      }
    } else {
      var k := if j > 0 && IsDelimiter(name[j - 1]) then j - 1 else j;
      assert TailMatches(name[k..]) by {
        if k < j { assert name[k..][1..] == name[j..]; }
      }
      if v.Some? {
        if |v.value| < k {
          TailFailsBefore(name, |v.value|);
        }
        assert |v.value| == k;
      }
    }
  }
}
