# TypoGard for crates.io, modelled in Dafny

This project models the typosquat detector for crates.io crate names in
`typogard_crates.py`. A suspect crate name is checked against the set of
popular crate names. The rules work backwards from the suspect: each one applies
one kind of edit, and any result that is a popular crate is a possible target.
The edits are:

- remove one of two equal adjacent characters;
- insert one allowed character;
- exchange two adjacent characters;
- reorder the words between delimiters;
- replace a character by a common typo;
- strip a trailing version number.

A seventh signal looks the suspect up in an index of single-bit-flip variants
of the popular names. A candidate from the five edit rules or the version rule
is kept only if it passes a guard: it is popular, it differs from the suspect,
and it shares no owner with the suspect. The surviving candidates are
deduplicated. They are then filtered by how alike the two crates' descriptions
are.

Modules, one per file:

| module | file | contents |
|---|---|---|
| `Tables` | `tables.dfy` | the constants, the character classes, `CRATE_NAME_REGEX` |
| `Crates` | `crates.dfy` | crate records and the `Registry`; `same_author`, the guard, `get_most_popular_package`, the `return_all` selection, `allowlisted` |
| `Edits` | `edits.dfy` | the single-position edits and `str.join` |
| `Words` | `words.dfy` | the token split and `itertools.permutations` |
| `Version` | `version.dfy` | `VERSION_NUMBER_REGEX` |
| `Signals` | `signals.dfy` | the six rule functions |
| `Bitflip` | `bitflip.dfy` | `blips`, `generate_bitflips`, `bitflips` |
| `Detector` | `detector.dfy` | `filter_targets` and `get_typosquatting_targets` |
| `Populate` | `populate.dfy` | the row grouping of `populate_crate_lists` |

The source keeps its state in module-level globals: `crates`,
`popular_package_list`, `popular_package_set` and `popular_bitflips`. Here that
state is one `Registry` value, which each operation takes as a parameter.
`popular_package_list` is a live `crates.keys()` view, so once the crates to
check have been added it lists every crate, popular ones first.
`Registry.order` is that final key order.

Each rule function is a method with the source's loops. It is proved equal to a
function that lists, in order, the candidates the loops try, filtered by the
guard, with the `return_all` tail applied. Separate lemmas then state which
strings those candidates are. Examples: "the name with position i removed,
where positions i and i+1 are equal", or "some rearrangement of the words
joined by `''`, `-` or `_`". Each such lemma has both directions.

Behaviour of the code the model follows:

- The five rules with a `return_all` flag default to `return_all=True`. `get_typosquatting_targets` calls
  the rules with that default, so it collects all matches, and
  `CollectSignals` passes `true`. The docstrings describe what `False` does
  (only the most popular match); the general `returnAll` flag is modelled
  and proved for both values.
- `blips` keeps the variants that `CRATE_NAME_REGEX.search` accepts, which
  include names ending in one newline (see "## Findings"), although its
  docstring (typogard_crates.py:503) promises only valid crate names. The bit-flip index
  takes the filter as a parameter (`BlipFilter`): `AsWritten` is the program,
  `Corrected` the intended crate-name test.
- `bitflips` returns the index entries unfiltered. The names it reports are
  therefore not checked for a shared owner or for being the suspect itself.
  `SignalOutputsAre` states this exactly.
- Owner logins come from an SQL `COALESCE` that can be NULL, so an author is an
  `Option`. Two crates that each have a NULL owner "share an author", since
  `None == None` in Python (`NoOwnerSharesAuthor`), which is more than the
  "author in common" of the docstring at typogard_crates.py:156.

## Model

| member | source | states |
|---|---|---|
| Tables.MatchesCrateNameRegex | typogard_crates.py:71 | `CRATE_NAME_REGEX.search` succeeds exactly on a valid crate name, or on a valid crate name followed by one newline |
| Tables.CrateNameRegexAdmitsNewline | typogard_crates.py:71 | as Python evaluates it, `CRATE_NAME_REGEX.search` accepts `"ab\n"`, which is not a valid crate name |
| Tables.CrateNameRegexOnValidNames | typogard_crates.py:71 | every valid crate name (non-empty, only `[A-Za-z0-9_-]`) matches; a match without a trailing newline is a valid crate name |
| Tables.TypoReplacementsShort | typogard_crates.py:76-116 | every replacement listed in `TYPOS` is at most two characters long |
| Crates.SharesAuthor | typogard_crates.py:159-164 | the early-return loop over the first author list answers True exactly when some author is in both lists |
| Crates.SharesAuthorIff | typogard_crates.py:159-164 | the early-return author loop answers True exactly when some author of the first crate occurs among the second's |
| Crates.SameAuthor | typogard_crates.py:155-164 | `same_author(p1, p2)` answers the same as the loop run with the two crates exchanged: sharing an author is symmetric |
| Crates.SameAuthorIff | typogard_crates.py:155-164 | `same_author(p1, p2)` holds exactly when some author is in both author lists |
| Crates.NoOwnerSharesAuthor | typogard_crates.py:155-164 | two crates that both have a NULL owner count as having an author in common |
| Crates.IsTarget | typogard_crates.py:192-194 | a candidate passing the guard is a recorded crate that has none of the suspect's authors (exactly which candidates pass: `KeepTargetsAre`) |
| Crates.KeepTargets | typogard_crates.py:184-194 | the candidates a rule's loop appends are never more than the candidates it tries |
| Crates.KeepTargetsAre | typogard_crates.py:192-194 | the candidates a rule keeps are exactly those that are popular, differ from the suspect and share no author with it |
| Crates.KeepTargetsAppend | typogard_crates.py:192-194 | one more candidate is appended when it passes the guard and dropped otherwise |
| Crates.FirstListed | typogard_crates.py:141-147 | the loop returns an entry of `packages` that no earlier entry of the key order precedes, or finds that no popular entry is in `packages` |
| Crates.MostPopular | typogard_crates.py:131-151 | `get_most_popular_package` returns a member of its non-empty list: the one earliest in the popular order, or the first when none is listed |
| Crates.Select | typogard_crates.py:197-207 | with `return_all` everything found is returned; otherwise at most one name, empty only when nothing was found, and the earliest popular one |
| Crates.SelectTargets | typogard_crates.py:197-207 | a rule returns only guarded candidates, all of them when `return_all` holds, at most one otherwise |
| Crates.OwnerSetSingleton | typogard_crates.py:454-456 | `set(c['authors']) == {x}` exactly when the crate has owners and every one of them is `x` |
| Crates.Allowlisted | typogard_crates.py:449-458 | `allowlisted` holds exactly when the sole owner is `blallo` with the xkcd-386 homepage, the crates.io policies documentation and the blallo/xkcd-386 repository, or the sole owner is `skerkour` with the black-hat-rust repository |
| Edits.DeleteAt | typogard_crates.py:190 | removing one position makes the name one shorter |
| Edits.DeleteAtShifts | typogard_crates.py:190 | after the removal, earlier positions are kept and later ones shift left by one |
| Edits.InsertAt | typogard_crates.py:238 | inserting one character makes the name one longer |
| Edits.DeleteInsert | typogard_crates.py:238 | the inserted character is at the insertion point, and removing it restores the name |
| Edits.SwapAt | typogard_crates.py:279-283 | exchanging adjacent characters keeps the length |
| Edits.SwapAtExchanges | typogard_crates.py:279-283 | positions i and i+1 are exchanged, all others are unchanged, and swapping twice restores the name |
| Edits.ReplaceAt | typogard_crates.py:385-387 | replacing one position by `t` changes the length by `len(t) - 1` |
| Edits.ReplaceAtParts | typogard_crates.py:385-387 | the replacement keeps everything before and after the position, with `t` in between |
| Edits.Join | typogard_crates.py:339 | `d.join(p)` is at least as long as the strings of `p` together |
| Edits.JoinLength | typogard_crates.py:339 | `d.join(p)` is exactly as long as the strings of `p` together plus one `d` for each gap between two of them |
| Edits.JoinCons | typogard_crates.py:339 | `d.join([x] + p)` is `x`, then `d`, then `d.join(p)` (just `x` when `p` is empty) |
| Words.ToSpaces | typogard_crates.py:324 | `DELIMITER_REGEX.sub(' ', s)` keeps the length and turns exactly the `-` and `_` into spaces |
| Words.UnspacedToSpaces | typogard_crates.py:324 | after the substitution, the non-whitespace characters are the name's characters that are neither delimiters nor whitespace |
| Words.SplitFrom | typogard_crates.py:324 | a word already begun is never dropped: the split then yields at least one word (its exact result: `SplitFromLayout`, `LayoutSplits`) |
| Words.SplitFromWords | typogard_crates.py:324 | `str.split()` yields non-empty words without whitespace, each character taken from the input |
| Words.SplitFromJoin | typogard_crates.py:324 | the words, concatenated, are the input without its whitespace |
| Words.SplitFromLayout | typogard_crates.py:324 | the words `str.split()` yields, laid out between whitespace gaps that are non-empty between two words, give back the input |
| Words.SplitFromSplits | typogard_crates.py:324 | the input splits into the words `str.split()` yields |
| Words.LayoutSplits | typogard_crates.py:324 | any words laid out between such whitespace gaps are exactly what `str.split()` yields from the result |
| Words.SplitsIntoUnique | typogard_crates.py:324 | so the words an input splits into are unique: the maximal whitespace-free runs |
| Words.Tokens | typogard_crates.py:324 | the tokens are non-empty and hold no delimiter or whitespace; together they are the name's other characters, in order; and they are the words that the name with `-` and `_` turned into spaces splits into |
| Words.TokensExact | typogard_crates.py:324 | a list of words is the tokens of a name exactly when the name with `-` and `_` turned into spaces splits into it |
| Words.Permutations | typogard_crates.py:333 | `permutations(tokens)` yields `len(tokens)!` orderings |
| Words.PermutationsFrom | typogard_crates.py:333 | the orderings starting at position i or later number `(n - i) * (n - 1)!` |
| Words.PermutationsAreRearrangements | typogard_crates.py:333 | every ordering `permutations` yields is a rearrangement of the tokens |
| Words.PermutationsFromAreRearrangements | typogard_crates.py:333 | the same holds for the orderings that start from a given position onwards |
| Words.RearrangementsArePermutations | typogard_crates.py:333 | every rearrangement of the tokens is among the orderings yielded |
| Version.StemFromMatches | typogard_crates.py:65 | the lazy group is the shortest newline-free prefix whose remainder matches `[_-]?\d+$`, or there is none |
| Version.VersionStem | typogard_crates.py:418-424 | `VERSION_NUMBER_REGEX.match(name).group(1)` is the shortest newline-free prefix whose remainder matches `[_-]?\d+$`, or the match fails when no prefix qualifies |
| Version.StripVersion | typogard_crates.py:65 | stripping the trailing digit run and one delimiter fails exactly when the name does not end in a digit; otherwise it leaves a prefix whose remainder matches `[_-]?\d+$` |
| Version.VersionStemStrips | typogard_crates.py:65 | on a name without a newline, the regex group is exactly the name with its trailing digits and one optional delimiter stripped |
| Signals.RepeatedCandidatesAre | typogard_crates.py:184-190 | the loop tries exactly the names with position i removed, where positions i and i+1 are equal |
| Signals.RepeatedTargets | typogard_crates.py:167-207 | `repeated_characters` returns guarded repeat removals that are one character shorter, and every such name when `return_all` holds |
| Signals.RepeatedCharacters | typogard_crates.py:167-207 | the method's loop returns the guarded candidates of `RepeatedCandidates` in order, then applies the `return_all` tail |
| Signals.InsertionsAre | typogard_crates.py:236-238 | one row of the inner loop is exactly the insertions of a character of the alphabet at position i |
| Signals.InsertionsBeforeAre | typogard_crates.py:232-238 | the rows before position k are the insertions at some i < k |
| Signals.OmittedCandidatesAre | typogard_crates.py:228-238 | for names of length 4 or more, the candidates are exactly the insertions of one `ALLOWED_CHARACTERS` character at a position 0..len |
| Signals.OmittedTargets | typogard_crates.py:210-256 | `omitted_chars` returns guarded single insertions, and every such name when `return_all` holds and the name has length 4 or more |
| Signals.InsertionsLonger | typogard_crates.py:238 | every insertion tried is one character longer than the name |
| Signals.OmittedLonger | typogard_crates.py:228-242 | every name `omitted_chars` returns is one character longer than the suspect |
| Signals.TryInsertions | typogard_crates.py:236-242 | the inner loop appends the guarded insertions at position i, in alphabet order |
| Signals.OmittedChars | typogard_crates.py:210-256 | the method returns the selection of the guarded insertions in loop order, and `[]` for names shorter than 4 |
| Signals.SwapCandidatesAre | typogard_crates.py:276-283 | the loop tries exactly the names with positions i and i+1 exchanged |
| Signals.SwapAdjacent | typogard_crates.py:279-283 | the in-place exchange on a character list, joined, is the name with positions i and i+1 exchanged |
| Signals.SwapTargets | typogard_crates.py:259-300 | `swapped_characters` returns guarded adjacent swaps of the same length, and every such name when `return_all` holds |
| Signals.SwappedCharacters | typogard_crates.py:259-300 | the method returns the selection of the guarded swaps in loop order |
| Signals.JoiningsAre | typogard_crates.py:336-339 | one ordering's row is exactly its joins with `''`, `-` and `_` |
| Signals.JoiningsBeforeAre | typogard_crates.py:333-339 | the rows of the first k orderings are the joins of one of them with a delimiter |
| Signals.WordCandidatesAre | typogard_crates.py:320-339 | with a delimiter and at most 8 tokens, the candidates are exactly the rearrangements of the tokens joined by one delimiter; otherwise there are none |
| Signals.WordTargets | typogard_crates.py:303-356 | `swapped_words` returns `[]` without a delimiter or with more than 8 tokens; otherwise guarded rearrangements, all of them when `return_all` holds |
| Signals.TryOrderings | typogard_crates.py:333-343 | the two nested loops append the guarded joins, ordering by ordering and delimiter by delimiter |
| Signals.SwappedWords | typogard_crates.py:303-356 | the method returns the selection of the guarded joins in loop order, after the two early returns |
| Signals.ReplacementsRow | typogard_crates.py:382-387 | the row for position i has one candidate per typo of its character |
| Signals.ReplacementsAre | typogard_crates.py:382-387 | that row is exactly `n` with position i replaced by one of the typos of its character |
| Signals.ReplacementsBeforeAre | typogard_crates.py:376-387 | the rows before position k are such replacements at some i < k; characters without a `TYPOS` entry give none |
| Signals.TypoCandidatesAre | typogard_crates.py:376-391 | the candidates are exactly the names with one position holding a `TYPOS` key replaced by one of its entries |
| Signals.CommonTypoLength | typogard_crates.py:76-116 | one typo from `TYPOS` changes the length by at most one |
| Signals.TypoTargets | typogard_crates.py:359-404 | `common_typos` returns guarded one-typo variants within one character of the length, all of them when `return_all` holds |
| Signals.TryTypos | typogard_crates.py:382-391 | the inner loop appends the guarded replacements of position i, in table order |
| Signals.ApplyTypos | typogard_crates.py:376-391 | the outer loop returns the guarded replacements of every position, in loop order |
| Signals.CommonTypos | typogard_crates.py:359-404 | the method returns their selection |
| Signals.VersionNumbers | typogard_crates.py:407-431 | `version_numbers` returns at most one name, and only one that passes the guard |
| Signals.VersionNumbersStrip | typogard_crates.py:407-431 | on a name without a newline, it returns `s` exactly when `s` is the name with its version stripped and `s` passes the guard |
| Bitflip.KeepRegexMatches | typogard_crates.py:511 | the comprehension keeps exactly the variants that `CRATE_NAME_REGEX.search` accepts |
| Bitflip.KeepCrateNames | typogard_crates.py:511 | the corrected comprehension keeps exactly the variants that are valid crate names |
| Bitflip.BlipsAsWritten | typogard_crates.py:501-511 | `blips` as written keeps exactly the library's variants that `CRATE_NAME_REGEX.search` accepts |
| Bitflip.Blips | typogard_crates.py:501-511 | the corrected `blips` keeps exactly the library's variants that are valid crate names |
| Bitflip.BlipsUnder | typogard_crates.py:511 | under either filter, a blip is a library variant that the filter accepts |
| Bitflip.BlipsAsWrittenAdmitsNewline | typogard_crates.py:501-511 | `blips` as written passes a variant ending in a newline, and the corrected one does not |
| Bitflip.BlipsAreCrateNames | typogard_crates.py:501-511 | a corrected blip is exactly a library variant that is a valid crate name |
| Bitflip.AddBlips | typogard_crates.py:649-650 | `setdefault(bf, []).append(p)` for each blip adds `p` under every blip, loses nothing, adds nothing else and leaves no list empty |
| Bitflip.AddBlipsExtends | typogard_crates.py:648-650 | adding the blips of one more popular name extends the index to cover that name |
| Bitflip.GenerateBitflips | typogard_crates.py:644-650 | under either filter, the index lists, under each key, exactly the popular names that have that key among their blips, and no list is empty |
| Bitflip.Bitflips | typogard_crates.py:434-446 | `bitflips` returns `[]` for a name that is not a key, and otherwise only popular names |
| Bitflip.BitflipsAre | typogard_crates.py:442-446 | over the index generated with either filter, `bitflips(name)` lists `p` exactly when `p` is popular and `name` is one of its blips under that filter |
| Bitflip.BlipIndexKeysMatchRegex | typogard_crates.py:644-650 | every key of the index the program builds is accepted by `CRATE_NAME_REGEX.search` |
| Bitflip.AsWrittenIndexKeysNewline | typogard_crates.py:644-650 | the index the program builds keys `"ab\n"` when the library's only variant of a popular `abJ` is `"ab\n"`, which is no crate name |
| Bitflip.BlipIndexKeysAreCrateNames | typogard_crates.py:644-650 | every key of the index built with the corrected filter is a valid crate name |
| Crates.IsBlank | typogard_crates.py:655-656 | `d is None or d.strip() == ''`: holds exactly when there is no description or stripping its whitespace leaves the empty string |
| Crates.IsBlankChars | typogard_crates.py:655-656 | a description is blank exactly when it is missing or consists of whitespace only |
| Crates.LeftStripBlank | typogard_crates.py:655 | `lstrip()` leaves nothing exactly on an all-whitespace string, and otherwise starts at a non-space character |
| Detector.Judge | typogard_crates.py:653-674 | the verdict on one target: a raised exception names that target and never happens for a blank suspect description; a missing description fails only a target without one, a missing vector only a non-blank one; conversely, on the edit-distance path a target without a description raises, and on the similarity path a non-blank target with a zero vector norm raises; against a blank suspect description exactly the blank targets are kept |
| Detector.FilterByDistance | typogard_crates.py:660-664 | the edit-distance loop keeps the targets whose distance is below the threshold, scoring them by it, or raises for the first target with no description |
| Detector.FilterBySimilarity | typogard_crates.py:665-674 | the similarity loop skips blank targets and keeps those whose similarity exceeds the threshold, scoring them by it, or raises for the first target with no vector |
| Detector.FilterTargets | typogard_crates.py:653-675 | `filter_targets` raises exactly when some target's comparison fails, naming the first such target; otherwise it keeps exactly the accepted targets with their scores |
| Detector.BlankSuspectKeepsBlankTargets | typogard_crates.py:655-656 | a blank suspect description never raises, and keeps exactly the blank targets, each at score 100 |
| Detector.KeptScoresClearThresholds | typogard_crates.py:660-674 | a kept target's score is an integer distance below the Levenshtein threshold, or a similarity above the similarity threshold with a non-blank description |
| Detector.DistancePathKeepsIff | typogard_crates.py:660-664 | on the edit-distance path a target with a description is kept exactly when its distance is below the threshold, scored by the distance, and dropped otherwise |
| Detector.SimilarityPathKeepsIff | typogard_crates.py:665-674 | on the similarity path a non-blank target with a vector is kept exactly when its similarity exceeds the threshold, scored by the similarity, and dropped otherwise |
| Detector.FailuresNameTheTarget | typogard_crates.py:660-674 | an exception names its target: a missing description only on the edit-distance path, a missing vector only on the similarity path |
| Detector.LooserThresholdsKeepMore | typogard_crates.py:663-673 | a higher Levenshtein threshold or a lower similarity threshold keeps every target kept before, with the same score, and raises in exactly the same cases |
| Detector.LooserFilterKeepsMore | typogard_crates.py:653-675 | over the same targets, a filter with looser thresholds returns a superset of the stricter one's keys, with equal scores |
| Detector.ListOfSet | typogard_crates.py:492 | `list(set(xs))` holds each element of `xs` once and nothing else |
| Detector.SignalOutputsAre | typogard_crates.py:483-489 | a candidate is a guarded result of one of the five edit rules or the version rule, or a bit-flip index entry (unguarded) |
| Detector.SignalOutputsPopular | typogard_crates.py:483-489 | every candidate of every rule is popular |
| Detector.CollectSignals | typogard_crates.py:480-489 | the seven rule calls, with their defaults, concatenate the rules' outputs in call order |
| Detector.GetTyposquattingTargets | typogard_crates.py:461-498 | nothing for a popular or allowlisted crate; otherwise it raises exactly when some candidate's comparison fails, or returns exactly the accepted candidates with their scores, all popular and unequal to the suspect |
| Populate.AddRow | typogard_crates.py:615-619 | one `setdefault`/`append` step adds the row's crate to the keys, appends the row's login to its authors, keeps its columns or takes the row's for a new crate, leaves every other crate alone, and appends a new name to the key order |
| Populate.GroupRows | typogard_crates.py:614-619 | the grouping loop only adds keys and only appends to the key order |
| Populate.LoginsOfUnnamed | typogard_crates.py:614-619 | a crate no row names collects no logins |
| Populate.AddRowCoherent | typogard_crates.py:615-619 | one `setdefault`/`append` step keeps the key order listing every key exactly once |
| Populate.GroupRowsCoherent | typogard_crates.py:614-619 | so does the whole grouping loop |
| Populate.GroupRowsRecords | typogard_crates.py:614-619 | after grouping, a crate has a record exactly when it had one or some row names it; its authors are its old ones followed by its rows' logins, in order; its other columns come from its first row |
| Populate.GroupedKeys | typogard_crates.py:614-619 | grouping adds exactly the rows' names to the keys |
| Populate.PopulatedValid | typogard_crates.py:621-641 | the registry built from a coherent table, its first-query keys and the generated index is well formed |
| Populate.AddRows | typogard_crates.py:614-619 | the loop over one query's rows is the fold of the single step |
| Populate.PopulateCrateLists | typogard_crates.py:609-641 | the program stops exactly when the first query does not name `most_popular` distinct crates; otherwise the registry has the grouped records of both queries, the first query's crates as the popular set, and the bit-flip index generated with the given filter (`AsWritten` for the program as written) |

## Left out

- The PostgreSQL queries (`get_database_cursor`, `get_top_crates`, `get_crates_to_check`, `get_latest_version`) are external I/O. Their results are the row sequences passed to `PopulateCrateLists`.
- The `print` and `sys.exit(1)` of the popular-set size check become the `None` result of `PopulateCrateLists`.
- `download_latest` is not modelled: it does HTTP requests, file writes and `semver` ordering.
- `parse_arguments` and `main` are not modelled: they are command-line and reporting glue. The thresholds they read are the `Config` parameter, and `DefaultConfig` holds their defaults.
- `blip.get_blips` and `get_string_blips` belong to a foreign library whose source is not available. Their combined result is the parameter `rawBlips`.
- `Levenshtein.distance` and spaCy's `nlp(...).vector_norm` and `similarity` are foreign code. They are the functions in `Metrics`, fixed for one run, and their floats are `real`s.
- Detector.Judge: that `Levenshtein.distance` raises `TypeError` on a target whose description is `None`, and never otherwise, is an assumption about the foreign library; its source is not part of this model. The model turns that case into the `NoDescription` failure.
- Detector.FilterBySimilarity: spaCy's model is abstract, so only the branch structure, the thresholds and the exception are modelled, not what the similarity computes.
- Detector.ListOfSet: Python's set iteration order is unspecified, so the model picks elements in an arbitrary order. The contract states no order.
- Detector.GetTyposquattingTargets: for a popular or allowlisted name the source returns the list `[]` instead of a dictionary. The model returns an empty map.
- Tables.IsDigit: `\d` in `VERSION_NUMBER_REGEX` also matches non-ASCII Unicode digits. The model uses ASCII digits only.
- `same_author` raises `KeyError` when a crate is missing from `crates`. The model's callers require both crates to be present. `Valid` guarantees this for every popular name.
- The offline plotting scripts under `paper/` are not part of the detector and are not modelled.

## Findings

| source | as written | input that shows it | evidently intended | confidence | as-written member | corrected member |
|---|---|---|---|---|---|---|
| typogard_crates.py:71, typogard_crates.py:511 | `CRATE_NAME_REGEX.search(bf)` with pattern `^[A-Za-z0-9_-]+$`: Python's `$` also matches just before a final newline, so one trailing `\n` passes | a bit-flip variant ending in `\n`, e.g. `"ab\n"` (what flipping bit 6 of a final `J` gives) | only valid crate names are kept (`re.fullmatch`, or `\Z` instead of `$`) | not executed; whether the bit-flip library yields such a variant is not visible here | Bitflip.AsWrittenIndexKeysNewline | Bitflip.BlipIndexKeysAreCrateNames |
