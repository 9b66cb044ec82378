/**
 * The single edits the rules apply to a suspect crate name, and Python's
 * `str.join`. Each edit states its length; what it does to each position is
 * a lemma beside it.
 */
module Edits {

  /** `s[:i] + s[i + 1:]`: `s` without position `i`. */
  function DeleteAt(s: string, i: nat): (r: string)
    requires i < |s|
    ensures |r| == |s| - 1
  {
    s[..i] + s[i + 1..]
  }

  /** Deleting position `i` shifts everything after it one place to the left. */
  lemma DeleteAtShifts(s: string, i: nat)
    requires i < |s|
    ensures forall k :: 0 <= k < |s| - 1 ==> DeleteAt(s, i)[k] == if k < i then s[k] else s[k + 1]
  {
    var r := DeleteAt(s, i);
    forall k | 0 <= k < |s| - 1 ensures r[k] == if k < i then s[k] else s[k + 1] {
      if k < i {
        assert r[k] == s[..i][k];
      } else {
        assert r[k] == s[i + 1..][k - i];
      }
    }
  }

  /** `s[:i] + c + s[i:]`: `c` inserted before position `i`. */
  function InsertAt(s: string, i: nat, c: char): (r: string)
    requires i <= |s|
    ensures |r| == |s| + 1
  {
    s[..i] + [c] + s[i..]
  }

  /** Deleting an inserted character gives back the original name. */
  lemma DeleteInsert(s: string, i: nat, c: char)
    requires i <= |s|
    ensures InsertAt(s, i, c)[i] == c
    ensures DeleteAt(InsertAt(s, i, c), i) == s
  {
    var r := InsertAt(s, i, c);
    assert r[..i] == s[..i];
    assert r[i + 1..] == s[i..];
  }

  /** Positions `i` and `i + 1` of `s` exchanged. */
  function SwapAt(s: string, i: nat): (r: string)
    requires i + 1 < |s|
    ensures |r| == |s|
  {
    s[..i] + [s[i + 1], s[i]] + s[i + 2..]
  }

  /** A swap exchanges the two positions and leaves the others alone; swapping twice undoes it. */
  lemma SwapAtExchanges(s: string, i: nat)
    requires i + 1 < |s|
    ensures SwapAt(s, i)[i] == s[i + 1] && SwapAt(s, i)[i + 1] == s[i]
    ensures forall k :: 0 <= k < |s| && k != i && k != i + 1 ==> SwapAt(s, i)[k] == s[k]
    ensures SwapAt(SwapAt(s, i), i) == s
  {
    var r := SwapAt(s, i);
    assert forall k :: 0 <= k < |s| && k != i && k != i + 1 ==> r[k] == s[k];
    assert SwapAt(r, i) == s by {
      var rr := SwapAt(r, i);
      assert forall k :: 0 <= k < |s| ==> rr[k] == s[k];
    }
  }

  /** Position `i` of `s` replaced by the (possibly empty or longer) string `t`. */
  function ReplaceAt(s: string, i: nat, t: string): (r: string)
    requires i < |s|
    ensures |r| == |s| - 1 + |t|
  {
    s[..i] + t + s[i + 1..]
  }

  /** A replacement keeps what is before and after position `i`, with `t` in between. */
  lemma ReplaceAtParts(s: string, i: nat, t: string)
    requires i < |s|
    ensures var r := ReplaceAt(s, i, t);
      r[..i] == s[..i] && r[i..i + |t|] == t && r[i + |t|..] == s[i + 1..]
  {
    var r := ReplaceAt(s, i, t);
    assert r[..i] == s[..i];
    assert r[i..i + |t|] == t;
    assert r[i + |t|..] == s[i + 1..];
  }

  /** The lengths of the strings of `p`, added up. */
  function TotalLength(p: seq<string>): nat {
    if p == [] then 0 else |p[0]| + TotalLength(p[1..])
  }

  /** `d.join(p)`: the strings of `p` with one `d` between each two; nothing of them is lost. */
  function Join(d: string, p: seq<string>): (r: string)
    ensures |r| >= TotalLength(p)
  {
    if |p| == 0 then ""
    else if |p| == 1 then p[0]
    else p[0] + d + Join(d, p[1..])
  }

  /** `d.join(p)` is as long as the strings of `p` together, plus one `d` per gap between two of them. */
  lemma {:induction false} JoinLength(d: string, p: seq<string>)
    ensures |Join(d, p)| == TotalLength(p) + (if p == [] then 0 else (|p| - 1) * |d|)
  {
    if |p| > 1 {
      JoinLength(d, p[1..]);
    }
  }

  lemma JoinCons(d: string, x: string, p: seq<string>)
    ensures Join(d, [x] + p) == if p == [] then x else x + d + Join(d, p)
  {
    assert ([x] + p)[1..] == p;
  }
}
