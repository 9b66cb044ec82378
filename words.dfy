/**
 * The word handling of the swapped-words rule: splitting a crate name into
 * its words, and the orderings that `itertools.permutations` produces.
 */
module Words {
  import opened Tables
  import opened Edits

  /** `DELIMITER_REGEX.sub(' ', s)`: every `-` and `_` becomes a space. */
  function ToSpaces(s: string): (r: string)
    ensures |r| == |s|
    ensures forall i :: 0 <= i < |s| ==> r[i] == (if IsDelimiter(s[i]) then ' ' else s[i])
  {
    if s == [] then []
    else [if IsDelimiter(s[0]) then ' ' else s[0]] + ToSpaces(s[1..])
  }

  /** The characters of `s` that are not whitespace, in order. */
  function Unspaced(s: string): string {
    if s == [] then []
    else (if IsSpace(s[0]) then [] else [s[0]]) + Unspaced(s[1..])
  }

  /** The characters of `s` that are neither a delimiter nor whitespace, in order. */
  function Unseparated(s: string): string {
    if s == [] then []
    else (if IsDelimiter(s[0]) || IsSpace(s[0]) then [] else [s[0]]) + Unseparated(s[1..])
  }

  lemma {:induction false} UnspacedToSpaces(s: string)
    ensures Unspaced(ToSpaces(s)) == Unseparated(s)
  {
    if s != [] {
      assert ToSpaces(s)[1..] == ToSpaces(s[1..]);
      UnspacedToSpaces(s[1..]);
    }
  }

  /**
   * `str.split()` with no separator, continuing a word `word` already begun:
   * maximal runs of non-whitespace, with no empty words.
   */
  function SplitFrom(s: string, word: string): (r: seq<string>)
    ensures word != [] ==> r != []
    decreases |s|
  {
    if s == [] then
      if word == [] then [] else [word]
    else if IsSpace(s[0]) then
      var rest := SplitFrom(s[1..], []);
      if word == [] then rest else [word] + rest
    else SplitFrom(s[1..], word + [s[0]])
  }

  /** At a whitespace character the word read so far, if any, is one whole word. */
  lemma SplitAtSpace(s: string, word: string)
    requires s != [] && IsSpace(s[0])
    requires Join("", SplitFrom(s[1..], [])) == Unspaced(s[1..])
    ensures Join("", SplitFrom(s, word)) == word + Unspaced(s)
  {
    var rest := SplitFrom(s[1..], []);
    assert Unspaced(s) == Unspaced(s[1..]);
    if word != [] {
      JoinCons("", word, rest);
    }
  }

  /** The words are non-empty and hold no whitespace, and each character comes from the input. */
  lemma {:induction false} SplitFromWords(s: string, word: string)
    requires forall c :: c in word ==> !IsSpace(c)
    ensures forall k :: 0 <= k < |SplitFrom(s, word)| ==> SplitFrom(s, word)[k] != []
    ensures forall k, c :: 0 <= k < |SplitFrom(s, word)| && c in SplitFrom(s, word)[k] ==>
      !IsSpace(c) && (c in word || c in s)
    decreases |s|
  {
    if s != [] {
      assert forall c :: c in s[1..] ==> c in s;
      if IsSpace(s[0]) {
        SplitFromWords(s[1..], []);
        var rest := SplitFrom(s[1..], []);
        var r := SplitFrom(s, word);
        if word == [] {
          assert r == rest;
        } else {
          assert r == [word] + rest;
          assert forall k :: 0 < k < |r| ==> r[k] == rest[k - 1];
        }
      } else {
        SplitFromWords(s[1..], word + [s[0]]);
        var r := SplitFrom(s, word);
        assert r == SplitFrom(s[1..], word + [s[0]]);
        forall k, c | 0 <= k < |r| && c in r[k] ensures c in word || c in s {
          assert c in word + [s[0]] || c in s[1..];
        }
      }
    }
  }

  /** Together the words are the input with its whitespace removed. */
  lemma {:induction false} SplitFromJoin(s: string, word: string)
    ensures Join("", SplitFrom(s, word)) == word + Unspaced(s)
    decreases |s|
  {
    if s != [] {
      if IsSpace(s[0]) {
        SplitFromJoin(s[1..], []);
        SplitAtSpace(s, word);
      } else {
        SplitFromJoin(s[1..], word + [s[0]]);
        assert word + [s[0]] + Unspaced(s[1..]) == word + Unspaced(s);
      }
    }
  }

  predicate AllSpace(s: string) {
    forall i :: 0 <= i < |s| ==> IsSpace(s[i])
  }

  predicate NoSpace(s: string) {
    forall i :: 0 <= i < |s| ==> !IsSpace(s[i])
  }

  /** `gaps[0] + words[0] + gaps[1] + ... + words[n - 1] + gaps[n]`. */
  function Interleave(gaps: seq<string>, words: seq<string>): string
    requires |gaps| == |words| + 1
    decreases |words|
  {
    if words == [] then gaps[0] else gaps[0] + words[0] + Interleave(gaps[1..], words[1..])
  }

  /**
   * `words` between whitespace `gaps`: the words are non-empty and hold no
   * whitespace, and every gap between two words is non-empty.
   */
  predicate Layout(gaps: seq<string>, words: seq<string>) {
    && |gaps| == |words| + 1
    && (forall k :: 0 <= k < |gaps| ==> AllSpace(gaps[k]))
    && (forall k :: 0 < k < |words| ==> gaps[k] != [])
    && (forall k :: 0 <= k < |words| ==> words[k] != [] && NoSpace(words[k]))
  }

  /** `s` is `words` laid out between whitespace: the words are the maximal whitespace-free runs of `s`. */
  ghost predicate SplitsInto(s: string, words: seq<string>) {
    exists gaps :: Layout(gaps, words) && Interleave(gaps, words) == s
  }

  lemma PrependGap(x: string, gaps: seq<string>, words: seq<string>)
    requires |gaps| == |words| + 1
    ensures Interleave([x + gaps[0]] + gaps[1..], words) == x + Interleave(gaps, words)
  {
    assert ([x + gaps[0]] + gaps[1..])[1..] == gaps[1..];
  }

  /** The layout step at a whitespace character: it joins the next gap, ending the word read so far. */
  lemma LayoutAtSpace(s: string, word: string, g: seq<string>) returns (gaps: seq<string>)
    requires s != [] && IsSpace(s[0]) && NoSpace(word)
    requires Layout(g, SplitFrom(s[1..], [])) && Interleave(g, SplitFrom(s[1..], [])) == s[1..]
    ensures Layout(gaps, SplitFrom(s, word)) && Interleave(gaps, SplitFrom(s, word)) == word + s
  {
    var rest := SplitFrom(s[1..], []);
    var g' := [[s[0]] + g[0]] + g[1..];
    PrependGap([s[0]], g, rest);
    assert [s[0]] + s[1..] == s;
    assert Layout(g', rest) by {
      assert forall k :: 0 < k < |g'| ==> g'[k] == g[k];
    }
    if word == [] {
      gaps := g';
    } else {
      gaps := [[]] + g';
      LayoutCons(word, g', rest);
    }
  }

  /** A word in front of a layout whose first gap is non-empty, with an empty gap before it. */
  lemma LayoutCons(word: string, g: seq<string>, rest: seq<string>)
    requires word != [] && NoSpace(word) && Layout(g, rest) && g[0] != []
    ensures Layout([[]] + g, [word] + rest)
    ensures Interleave([[]] + g, [word] + rest) == word + Interleave(g, rest)
  {
    var gaps := [[]] + g;
    var r := [word] + rest;
    assert gaps[1..] == g && r[1..] == rest;
    assert forall k :: 0 < k < |gaps| ==> gaps[k] == g[k - 1];
    assert forall k :: 0 < k < |r| ==> r[k] == rest[k - 1];
  }

  /** The gaps that lay out `SplitFrom(s, word)` as `word + s`. */
  lemma {:induction false} SplitFromLayout(s: string, word: string) returns (gaps: seq<string>)
    requires NoSpace(word)
    ensures Layout(gaps, SplitFrom(s, word)) && Interleave(gaps, SplitFrom(s, word)) == word + s
    decreases |s|
  {
    var r := SplitFrom(s, word);
    if s == [] {
      gaps := if word == [] then [[]] else [[], []];
      assert word + s == word;
    } else if IsSpace(s[0]) {
      var g := SplitFromLayout(s[1..], []);
      gaps := LayoutAtSpace(s, word, g);
    } else {
      gaps := SplitFromLayout(s[1..], word + [s[0]]);
      assert word + [s[0]] + s[1..] == word + s;
    }
  }

  /** `str.split()` lays its words out over the input. */
  lemma SplitFromSplits(s: string)
    ensures SplitsInto(s, SplitFrom(s, []))
  {
    var gaps := SplitFromLayout(s, []);
    assert [] + s == s;
  }

  /** Leading whitespace adds no word. */
  lemma {:induction false} SkipSpaces(g: string, t: string)
    requires AllSpace(g)
    ensures SplitFrom(g + t, []) == SplitFrom(t, [])
    decreases |g|
  {
    if g == [] {
      assert g + t == t;
    } else {
      assert (g + t)[0] == g[0];
      assert (g + t)[1..] == g[1..] + t;
      SkipSpaces(g[1..], t);
    }
  }

  /** A whitespace-free run extends the word being read. */
  lemma {:induction false} ReadWord(w: string, t: string, acc: string)
    requires NoSpace(w)
    ensures SplitFrom(w + t, acc) == SplitFrom(t, acc + w)
    decreases |w|
  {
    if w == [] {
      assert w + t == t && acc + w == acc;
    } else {
      assert (w + t)[1..] == w[1..] + t;
      ReadWord(w[1..], t, acc + [w[0]]);
      assert acc + [w[0]] + w[1..] == acc + w;
    }
  }

  /** A word ends at the end of the input or at whitespace. */
  lemma EndWord(rest: string, w: string)
    requires w != [] && (rest == [] || IsSpace(rest[0]))
    ensures SplitFrom(rest, w) == [w] + SplitFrom(rest, [])
  {
  }

  lemma LayoutTail(gaps: seq<string>, words: seq<string>)
    requires Layout(gaps, words) && words != []
    ensures Layout(gaps[1..], words[1..])
  {
    assert forall k :: 0 <= k < |gaps| - 1 ==> gaps[1..][k] == gaps[k + 1];
    assert forall k :: 0 <= k < |words| - 1 ==> words[1..][k] == words[k + 1];
  }

  /** After the first word, the layout continues with whitespace or ends. */
  lemma AfterFirstWord(gaps: seq<string>, words: seq<string>)
    requires Layout(gaps, words) && words != []
    ensures var rest := Interleave(gaps[1..], words[1..]); rest == [] || IsSpace(rest[0])
  {
    var rest := Interleave(gaps[1..], words[1..]);
    if rest != [] {
      if words[1..] == [] {
        assert rest == gaps[1];
      } else {
        assert gaps[1] != [];
        assert rest == gaps[1] + (words[1..][0] + Interleave(gaps[1..][1..], words[1..][1..]));
      }
      assert rest[0] == gaps[1][0];
    }
  }

  /** Any layout of words over `s` is what `str.split()` yields. */
  lemma {:induction false} LayoutSplits(gaps: seq<string>, words: seq<string>)
    requires Layout(gaps, words)
    ensures SplitFrom(Interleave(gaps, words), []) == words
    decreases |words|
  {
    if words == [] {
      SkipSpaces(gaps[0], []);
      assert gaps[0] + [] == gaps[0];
    } else {
      var rest := Interleave(gaps[1..], words[1..]);
      LayoutTail(gaps, words);
      LayoutSplits(gaps[1..], words[1..]);
      assert Interleave(gaps, words) == gaps[0] + (words[0] + rest);
      SkipSpaces(gaps[0], words[0] + rest);
      ReadWord(words[0], rest, []);
      assert [] + words[0] == words[0];
      AfterFirstWord(gaps, words);
      EndWord(rest, words[0]);
      assert words == [words[0]] + words[1..];
    }
  }

  /** The words `s` splits into are exactly what `str.split()` yields. */
  lemma SplitsIntoUnique(s: string, words: seq<string>)
    requires SplitsInto(s, words)
    ensures words == SplitFrom(s, [])
  {
    var gaps :| Layout(gaps, words) && Interleave(gaps, words) == s;
    LayoutSplits(gaps, words);
  }

  /**
   * The `tokens` of `swapped_words`: the words of `name` between delimiters
   * and whitespace. Every token is non-empty and separator-free, and together
   * they hold every other character of the name, in order.
   */
  function Tokens(name: string): (r: seq<string>)
    ensures forall k :: 0 <= k < |r| ==> r[k] != []
    ensures forall k, c :: 0 <= k < |r| && c in r[k] ==> c in name && !IsDelimiter(c) && !IsSpace(c)
    ensures Join("", r) == Unseparated(name)
    ensures SplitsInto(ToSpaces(name), r)
  {
    var spaced := ToSpaces(name);
    var r := SplitFrom(spaced, []);
    SplitFromWords(spaced, []);
    SplitFromJoin(spaced, []);
    SplitFromSplits(spaced);
    UnspacedToSpaces(name);
    assert forall c :: c in spaced && !IsSpace(c) ==> c in name && !IsDelimiter(c);
    r
  }

  /**
   * The tokens are the only words the delimiter-substituted name splits
   * into: any layout of words over it between whitespace gives them.
   */
  lemma TokensExact(name: string, words: seq<string>)
    ensures SplitsInto(ToSpaces(name), words) <==> words == Tokens(name)
  {
    if SplitsInto(ToSpaces(name), words) {
      SplitsIntoUnique(ToSpaces(name), words);
    }
  }

  function Factorial(n: nat): nat {
    if n == 0 then 1 else n * Factorial(n - 1)
  }

  /** `xs` without position `i`. */
  function RemoveAt<T>(xs: seq<T>, i: nat): seq<T>
    requires i < |xs|
  {
    xs[..i] + xs[i + 1..]
  }

  /** Each sequence of `ps` with `x` in front. */
  function Prefixed<T>(x: T, ps: seq<seq<T>>): seq<seq<T>> {
    seq(|ps|, k requires 0 <= k < |ps| => [x] + ps[k])
  }

  /**
   * `itertools.permutations(xs)`, in its order: positions chosen first in
   * increasing order, then the orderings of the rest. Equal elements at
   * different positions give repeated orderings, as in Python.
   */
  function Permutations<T>(xs: seq<T>): (r: seq<seq<T>>)
    ensures |r| == Factorial(|xs|)
    decreases |xs|, 1
  {
    if xs == [] then [[]] else PermutationsFrom(xs, 0)
  }

  /** The orderings of `xs` whose first element is taken from position `i` or later. */
  function PermutationsFrom<T>(xs: seq<T>, i: nat): (r: seq<seq<T>>)
    requires i <= |xs|
    ensures |r| == (|xs| - i) * (if xs == [] then 1 else Factorial(|xs| - 1))
    decreases |xs|, 0, |xs| - i
  {
    if i == |xs| then []
    else Prefixed(xs[i], Permutations(RemoveAt(xs, i))) + PermutationsFrom(xs, i + 1)
  }

  lemma RemoveAtMultiset<T>(xs: seq<T>, i: nat)
    requires i < |xs|
    ensures multiset(RemoveAt(xs, i)) + multiset{xs[i]} == multiset(xs)
  {
    assert xs == xs[..i] + [xs[i]] + xs[i + 1..];
  }

  /** Every ordering produced is a rearrangement of `xs`. */
  lemma {:induction false} PermutationsAreRearrangements<T>(xs: seq<T>, p: seq<T>)
    requires p in Permutations(xs)
    ensures multiset(p) == multiset(xs)
    decreases |xs|, 1
  {
    if xs != [] {
      PermutationsFromAreRearrangements(xs, 0, p);
    }
  }

  lemma {:induction false} PermutationsFromAreRearrangements<T>(xs: seq<T>, i: nat, p: seq<T>)
    requires i <= |xs| && p in PermutationsFrom(xs, i)
    ensures multiset(p) == multiset(xs)
    decreases |xs|, 0, |xs| - i
  {
    if i < |xs| {
      var rest := Permutations(RemoveAt(xs, i));
      var pre := Prefixed(xs[i], rest);
      if p in pre {
        var k :| 0 <= k < |pre| && pre[k] == p;
        PermutationsAreRearrangements(RemoveAt(xs, i), rest[k]);
        RemoveAtMultiset(xs, i);
        assert p == [xs[i]] + rest[k];
      } else {
        PermutationsFromAreRearrangements(xs, i + 1, p);
      }
    }
  }

  lemma {:induction false} PermutationsFromIncludes<T>(xs: seq<T>, j: nat, i: nat, p: seq<T>)
    requires j <= i < |xs|
    requires p in Prefixed(xs[i], Permutations(RemoveAt(xs, i)))
    ensures p in PermutationsFrom(xs, j)
    decreases i - j
  {
    if j < i {
      PermutationsFromIncludes(xs, j + 1, i, p);
    }
  }

  /** Every rearrangement of `xs` is produced. */
  lemma {:induction false} RearrangementsArePermutations<T>(xs: seq<T>, p: seq<T>)
    requires multiset(p) == multiset(xs)
    ensures p in Permutations(xs)
    decreases |xs|
  {
    assert |p| == |multiset(p)| == |xs|;
    if xs != [] {
      assert p[0] in multiset(xs);
      var i :| 0 <= i < |xs| && xs[i] == p[0];
      RemoveAtMultiset(xs, i);
      assert p == [p[0]] + p[1..];
      assert multiset(p) == multiset{p[0]} + multiset(p[1..]);
      assert multiset(p[1..]) == multiset(p) - multiset{p[0]};
      assert multiset(RemoveAt(xs, i)) == multiset(xs) - multiset{xs[i]};
      RearrangementsArePermutations(RemoveAt(xs, i), p[1..]);
      var rest := Permutations(RemoveAt(xs, i));
      var k :| 0 <= k < |rest| && rest[k] == p[1..];
      assert Prefixed(xs[i], rest)[k] == p;
      PermutationsFromIncludes(xs, 0, i, p);
    }
  }
}
