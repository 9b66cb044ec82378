/**
 * The constant tables of the crate typosquatting detector: the characters a
 * crate name may contain, the word delimiters, the keyboard/homoglyph typo
 * table, the default thresholds, and the character classes that Python's
 * regular expressions and string methods use on crate names.
 */
module Tables {

  /** Default Levenshtein distance under which two descriptions count as similar. */
  const DEFAULT_LEVENSHTEIN_THRESHOLD: int := 10

  /** Default spaCy similarity over which two descriptions count as similar. */
  const DEFAULT_SIMILARITY_THRESHOLD: real := 0.97

  /** Characters that may be inserted by the omitted-character rule, in table order. */
  const ALLOWED_CHARACTERS: string :=
    "ABCDEFGHIJKLMNOPQRSTUVWXYZabcdefghijklmnopqrstuvwxyz1234567890-_"

  /** The strings used to re-join reordered words: none, hyphen, underscore. */
  const DELIMITERS: seq<string> := ["", "-", "_"]

  /**
   * Plausible typos for each character, by QWERTY locality and visual
   * similarity. A replacement may be empty or two characters long.
   */
  const TYPOS: map<char, seq<string>> := map[
    '1' := ["2", "q", "i", "l"],
    '2' := ["1", "q", "w", "3"],
    '3' := ["2", "w", "e", "4"],
    '4' := ["3", "e", "r", "5"],
    '5' := ["4", "r", "t", "6", "s"],
    '6' := ["5", "t", "y", "7"],
    '7' := ["6", "y", "u", "8"],
    '8' := ["7", "u", "i", "9"],
    '9' := ["8", "i", "o", "0"],
    '0' := ["9", "o", "p", "-"],
    '-' := ["_", "0", "p", ".", ""],
    '_' := ["-", "0", "p", ".", ""],
    'q' := ["1", "2", "w", "a"],
    'w' := ["2", "3", "e", "s", "a", "q", "vv"],
    'e' := ["3", "4", "r", "d", "s", "w"],
    'r' := ["4", "5", "t", "f", "d", "e"],
    't' := ["5", "6", "y", "g", "f", "r"],
    'y' := ["6", "7", "u", "h", "t", "i"],
    'u' := ["7", "8", "i", "j", "y", "v"],
    'i' := ["1", "8", "9", "o", "l", "k", "j", "u", "y"],
    'o' := ["9", "0", "p", "l", "i"],
    'p' := ["0", "-", "o"],
    'a' := ["q", "w", "s", "z"],
    's' := ["w", "d", "x", "z", "a", "5"],
    'd' := ["e", "r", "f", "c", "x", "s"],
    'f' := ["r", "g", "v", "c", "d"],
    'g' := ["t", "h", "b", "v", "f"],
    'h' := ["y", "j", "n", "b", "g"],
    'j' := ["u", "i", "k", "m", "n", "h"],
    'k' := ["i", "o", "l", "m", "j"],
    'l' := ["i", "o", "p", "k", "1"],
    'z' := ["a", "s", "x"],
    'x' := ["z", "s", "d", "c"],
    'c' := ["x", "d", "f", "v"],
    'v' := ["c", "f", "g", "b", "u"],
    'b' := ["v", "g", "h", "n"],
    'n' := ["b", "h", "j", "m"],
    'm' := ["n", "j", "k", "rn"],
    '.' := ["-", "_", ""]
  ]

  /** `\d` restricted to ASCII digits. */
  predicate IsDigit(c: char) {
    '0' <= c <= '9'
  }

  predicate AllDigits(s: string) {
    forall i :: 0 <= i < |s| ==> IsDigit(s[i])
  }

  /** The class `[_-]` of `DELIMITER_REGEX`. */
  predicate IsDelimiter(c: char) {
    c == '-' || c == '_'
  }

  /** Python's whitespace (`str.isspace`), which `str.split()` and `str.strip()` remove. */
  predicate IsSpace(c: char) {
    || ('\t' <= c <= '\r')
    || ('\U{1C}' <= c <= '\U{1F}')
    || c == ' '
    || c == '\U{85}'
    || c == '\U{A0}'
    || c == '\U{1680}'
    || ('\U{2000}' <= c <= '\U{200A}')
    || c == '\U{2028}'
    || c == '\U{2029}'
    || c == '\U{202F}'
    || c == '\U{205F}'
    || c == '\U{3000}'
  }

  /** The class `[A-Za-z0-9_-]` of `CRATE_NAME_REGEX`. */
  predicate IsNameChar(c: char) {
    ('A' <= c <= 'Z') || ('a' <= c <= 'z') || IsDigit(c) || IsDelimiter(c)
  }

  predicate AllNameChars(s: string) {
    forall i :: 0 <= i < |s| ==> IsNameChar(s[i])
  }

  /**
   * `CRATE_NAME_REGEX.search(s) is not None` as Python evaluates it: `^` anchors
   * at the start, and `$` matches at the end OR just before a final newline,
   * so one trailing '\n' is accepted.
   */
  predicate MatchesCrateNameRegex(s: string): (r: bool)
    ensures r <==> IsCrateName(s) || (|s| > 1 && s[|s| - 1] == '\n' && IsCrateName(s[..|s| - 1]))
  {
    assert |s| > 0 && s[|s| - 1] == '\n' ==> !IsNameChar(s[|s| - 1]);
    var body := if |s| > 0 && s[|s| - 1] == '\n' then s[..|s| - 1] else s;
    |body| > 0 && AllNameChars(body)
  }

  /** A valid crate name: non-empty, every character in `[A-Za-z0-9_-]`. */
  predicate IsCrateName(s: string) {
    |s| > 0 && AllNameChars(s)
  }

  /** The regex as written admits a name that is not a valid crate name. */
  lemma CrateNameRegexAdmitsNewline()
    ensures MatchesCrateNameRegex("ab\n") && !IsCrateName("ab\n")
  {
    assert "ab\n"[..2] == "ab";
    assert !IsNameChar("ab\n"[2]);
  }

  /** Corrected check: every valid crate name matches, and the match is exact. */
  lemma CrateNameRegexOnValidNames(s: string)
    ensures IsCrateName(s) ==> MatchesCrateNameRegex(s)
    ensures MatchesCrateNameRegex(s) && (|s| == 0 || s[|s| - 1] != '\n') ==> IsCrateName(s)
  {
  }

  /** Every typo replacement is at most two characters long. */
  lemma TypoReplacementsShort(c: char, t: string)
    requires c in TYPOS && t in TYPOS[c]
    ensures |t| <= 2
  {
  }
}
