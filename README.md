# URL feature extraction of the malicious-URL classifier, in Dafny

The classifier reads a URL and turns its text into 21 numbers. It passes these
numbers to a trained model, which labels the URL benign, defacement, phishing
or malware. This project models the feature-extraction layer: every feature
function of `url_classifier.py` and `extract_features`, which puts the features
into a fixed-order vector. It also proves what those features promise.

Each feature is a pure function of the URL text, so the model uses
functions and lemmas only. The files are:

- `py_str.dfy` (module `PyStr`) models the Python string operations the
  features use:
  - `str.count` (`Count`): a left-to-right scan that skips past each match, so
    matches never overlap. An empty needle gives `len + 1`.
  - `str.split` for a one-character separator (`Split`), with `Join` as its
    inverse.
  - substring occurrence (`OccursAt`, `Contains`).
- `literal_search.dfy` (module `LiteralSearch`) models `re.search` for a
  pattern that alternates plain literals. The search finds the leftmost
  position where some alternative matches. At that position, it takes the
  first matching alternative in pattern order.
- `py_dict.dfy` (module `PyDict`) models the dict a literal builds. It keeps
  the entries in first-insertion order; a repeated key overwrites the entry
  in place. `Values` models `list(d.values())`.
- `url_classifier.dfy` (module `UrlClassifier`) holds the feature functions,
  the 21 keys, and the vector.
- `wrappers.dfy` defines `Option`, used for the value of `get_tld`, which may
  be `None`.

Several library calls are not modelled. `LibraryResults` carries what they
report for a URL:

- `urlparse(url).netloc` and `urlparse(url).path`;
- the result of `get_tld(url, fail_silently=True)`;
- whether the regex of `having_ip_address` matched;
- whether the hostname test of `abnormal_url` succeeded, or raised instead.
  `urlparse` raises `ValueError` on an unbalanced `[` (`http://[x/`), and
  `re.search` raises `re.error` when the hostname is not a valid pattern
  (`http://+a/`, `http://a(b/`). `abnormal_url` runs before the dict is
  built, so `extract_features` then returns nothing; the model gives `None`.

Features of the path or the netloc are stated relative to these components.

`hostname_length` measures the whole netloc. That includes any user
information and port, not just the host name. `count-http` also counts the
`http` inside every `https`, so `count-http >= count-https`.

## Model

| member | source | states |
|---|---|---|
| PyStr.Count | url_classifier.py:26-67 | `str.count` as a non-overlapping left-to-right count; with a non-empty needle, the matches fit in the text (count × needle length ≤ length); an empty needle gives length + 1 |
| PyStr.CountSingleChar | url_classifier.py:26-27 | counting a one-character needle gives the number of positions holding that character |
| PyStr.CountTimesCharBound | url_classifier.py:98-100 | the counted matches hold at most as many copies of any character as the text does |
| PyStr.CountDropPrefix | url_classifier.py:26-67 | dropping a prefix of the text never raises the count |
| PyStr.CountLosesAtMostOne | url_classifier.py:26-67 | dropping fewer characters than the needle's length loses at most one match |
| PyStr.CountDropOne | url_classifier.py:26-67 | dropping the first character never raises the count |
| PyStr.CountedMatches | url_classifier.py:26-67 | the matches the scan counts: exactly as many as `Count` gives, each an occurrence of the needle, no two overlapping |
| PyStr.CountAtLeastSpaced | url_classifier.py:26-67 | any choice of non-overlapping occurrences from a position on is no larger than the count of the remaining text |
| PyStr.CountIsMaximum | url_classifier.py:26-67 | `str.count` is the largest number of pairwise non-overlapping occurrences: its own matches are such a choice, and no choice is larger |
| PyStr.CountPositiveIffContains | url_classifier.py:29-30 | `s.count(needle) > 0` exactly when `needle in s` |
| PyStr.CountPrefixAtLeast | url_classifier.py:51-55 | a needle is counted at least as often as any longer needle it begins |
| PyStr.Split | url_classifier.py:88 | `str.split(sep)` yields one more piece than the text has separators |
| PyStr.SplitJoin | url_classifier.py:88 | joining the pieces with the separator restores the text |
| PyStr.SplitPiecesFree | url_classifier.py:88 | no piece contains the separator |
| PyStr.SplitHead | url_classifier.py:88 | the first piece is the longest separator-free prefix |
| PyStr.SplitAtFirst | url_classifier.py:88 | text before the first separator is the first piece; the rest splits on its own |
| PyStr.SplitSecondPiece | url_classifier.py:88 | after the first separator, the second piece is the first piece of the remainder |
| PyStr.ContainsCharBound | url_classifier.py:35-37 | a text containing a slice holds at least as many copies of each character as the slice |
| LiteralSearch.FirstAlternativeAt | url_classifier.py:75-77 | the first alternative, in pattern order, that matches at a position, or none |
| LiteralSearch.SearchFrom | url_classifier.py:39-49 | `re.search` over literal alternatives: a match is the leftmost position with a match, using its first matching alternative; no match means no alternative occurs anywhere |
| LiteralSearch.Search | url_classifier.py:76 | a match names an alternative that occurs at the match position; no earlier alternative occurs there, and no alternative occurs at any earlier position |
| LiteralSearch.SearchFindsAny | url_classifier.py:75-77 | the search succeeds exactly when one of the literals occurs in the text |
| PyDict.Insert | url_classifier.py:105-127 | after `d[k] = v`, the entry for `k` holds `v`; an existing key keeps its place and the size, a new key adds one entry; entries with other keys are unchanged |
| PyDict.FromLiteral | url_classifier.py:105-127 | a literal has at most as many entries as items, and the last item written is in the dict as written |
| PyDict.Values | url_classifier.py:130 | `list(d.values())` has one value per entry, in entry order |
| PyDict.FromLiteralKeysDistinct | url_classifier.py:105-127 | a dict built from any literal has each key once |
| PyDict.LiteralKeepsItems | url_classifier.py:105-127 | a literal with distinct keys keeps every item, in writing order |
| PyDict.LiteralValues | url_classifier.py:130 | with distinct keys, `list(d.values())` gives back exactly the written values |
| UrlClassifier.HavingIpAddress | url_classifier.py:14-20 | 0 or 1, and 1 exactly when the IP-address regex matched |
| UrlClassifier.AbnormalUrl | url_classifier.py:22-24 | 0 or 1, and 1 exactly when the hostname test succeeded |
| UrlClassifier.CountDot | url_classifier.py:26-27 | number of positions holding `.`, at most the URL length |
| UrlClassifier.CountWww | url_classifier.py:29-30 | non-overlapping: 3 × count ≤ number of `w` ≤ URL length |
| UrlClassifier.WwwMatchesDoNotOverlap | url_classifier.py:29-30 | `www` occurs at positions 0 and 1 of `wwww`, yet `count_www("wwww")` is 1 |
| UrlClassifier.CountAtrate | url_classifier.py:32-33 | number of positions holding `@`, at most the URL length |
| UrlClassifier.NoOfDir | url_classifier.py:35-37 | number of `/` in the path, at most its length |
| UrlClassifier.ShorteningService | url_classifier.py:39-49 | 0 or 1, and 1 exactly when the URL contains one of the 71 shortener literals (case-sensitive) |
| UrlClassifier.CountHttps | url_classifier.py:51-52 | 5 × count ≤ URL length |
| UrlClassifier.CountHttp | url_classifier.py:54-55 | 4 × count ≤ URL length |
| UrlClassifier.HttpAtLeastHttps | url_classifier.py:51-55 | `count_http(url) >= count_https(url)` for every URL |
| UrlClassifier.CountPer | url_classifier.py:57-58 | number of positions holding `%`, at most the URL length |
| UrlClassifier.CountQues | url_classifier.py:60-61 | number of positions holding `?`, at most the URL length |
| UrlClassifier.CountHyphen | url_classifier.py:63-64 | number of positions holding `-`, at most the URL length |
| UrlClassifier.CountEqual | url_classifier.py:66-67 | number of positions holding `=`, at most the URL length |
| UrlClassifier.DotCountExample | url_classifier.py:26-27 | `count_dot("a.b.c")` is 2 |
| UrlClassifier.UrlLength | url_classifier.py:69-70 | the number of characters of the URL |
| UrlClassifier.HostnameLength | url_classifier.py:72-73 | the number of characters of the netloc |
| UrlClassifier.SuspiciousWords | url_classifier.py:75-77 | 0 or 1, and 1 exactly when the URL contains one of the 12 keywords (case-sensitive) |
| UrlClassifier.DigitCount | url_classifier.py:79-80 | number of ASCII digits, at most the URL length |
| UrlClassifier.DigitCountByDigit | url_classifier.py:79-80 | `digit_count(url)` equals `url.count('0') + ... + url.count('9')` |
| UrlClassifier.LetterCount | url_classifier.py:82-83 | number of ASCII letters, at most the URL length |
| UrlClassifier.DigitsAndLettersWithinLength | url_classifier.py:69-83 | `digit_count(url) + letter_count(url) <= url_length(url)`, with ASCII digit and letter classes |
| UrlClassifier.CharacterFeaturesWithinLength | url_classifier.py:26-83 | with ASCII digit and letter classes, the `.`, `@`, `%`, `?`, `-`, `=`, digit and letter counts count disjoint positions, so their sum is at most `url_length(url)` |
| UrlClassifier.FdLength | url_classifier.py:85-90 | 0 when the path has no `/` (the caught `IndexError`); otherwise shorter than the path |
| UrlClassifier.FdLengthBetweenSlashes | url_classifier.py:85-90 | `fd_length` is the distance from the path's first `/` to its next `/`, or to the end of the path |
| UrlClassifier.TldLength | url_classifier.py:92-96 | -1 exactly when `get_tld` gave `None`, otherwise the TLD's length |
| UrlClassifier.NoOfEmbed | url_classifier.py:98-100 | non-overlapping: 2 × count ≤ path length |
| UrlClassifier.DirAtLeastTwiceEmbed | url_classifier.py:98-100 | `no_of_dir >= 2 * no_of_embed` on the same path |
| UrlClassifier.ComponentFeaturesWithinUrl | url_classifier.py:72-73 | when netloc and path are slices of the URL: `hostname_length` and `fd_length` are at most `url_length`, and the path holds no more `/` than the URL |
| UrlClassifier.FeatureKeysDistinct | url_classifier.py:105-127 | the 21 keys of the literal are pairwise different |
| UrlClassifier.Feature | url_classifier.py:105-127 | the value written under the k-th key is at least -1, and -1 only for `tld_length` when `get_tld` gave `None` |
| UrlClassifier.FeatureVector | url_classifier.py:105-127 | 21 slots; slot k holds the feature written under the k-th key |
| UrlClassifier.ExtractFeatures | url_classifier.py:103-130 | `None` exactly when `abnormal_url` raises; otherwise the dict's values come back as exactly the 21 written values, in key order from `use_of_ip` to `count-letters` |
| UrlClassifier.FeatureRange | url_classifier.py:105-127 | every feature is non-negative except `tld_length` (≥ -1); `use_of_ip`, `abnormal_url`, `short_url` and `sus_url` are 0 or 1 |
| UrlClassifier.FeatureVectorRanges | url_classifier.py:105-127 | the same ranges, slot by slot, over the vector |
| UrlClassifier.FeatureVectorCountsWithinLength | url_classifier.py:105-127 | every URL-count slot is at most the `url_length` slot (`count-www` ×3, `count-https` ×5, `count-http` ×4) |
| UrlClassifier.FeatureVectorOrderings | url_classifier.py:105-127 | slot `count-http` ≥ slot `count-https`; slot `count_dir` ≥ 2 × slot `count_embed_domian` |
| UrlClassifier.FeatureVectorCharacterBudget | url_classifier.py:105-127 | with ASCII digit and letter classes, the `.`, `@`, `%`, `?`, `-`, `=`, digit and letter slots sum to at most the `url_length` slot |

## Left out

- The Streamlit page is not modelled (url_classifier.py:133-158): title, text input, output and the top-level error message are presentation.
- Model loading and `model.predict` (url_classifier.py:11, 146) are not modelled; the trained model is an opaque file.
- The shown label is not modelled. It is picked by `random.randint` (url_classifier.py:144, 151) and ignores the model's prediction. This looks like a defect in the source, and it is nondeterministic.
- `having_ip_address` (url_classifier.py:14-20) is an input flag, `ipPatternFound`. Its result depends on full regex semantics. The missing `|` at the end of line 18 also glues the hex-IP alternative to the IPv6 one.
- `abnormal_url` (url_classifier.py:22-24) is an input flag, `hostnameFound`, with `hostnameTestRaises` for the case where it raises. It uses the hostname as a regex pattern, so its dots are wildcards. It also depends on how `urlparse` normalises the hostname.
- `urlparse` and `tld.get_tld` are not modelled. Their outputs (netloc, path, TLD or `None`) are inputs.
- `ExtractFeatures` returns a flat sequence. The numpy `reshape(1, -1)` into a one-row matrix is not modelled.
- DigitCount: counts only `0`-`9`. Python's `isnumeric` also accepts non-ASCII numerals.
- LetterCount: counts only ASCII letters. Python's `isalpha` also accepts non-ASCII letters. Some characters, such as CJK numerals, are both numeric and alphabetic in Python. For such input, DigitsAndLettersWithinLength holds of the model but not of the program.
- CharacterFeaturesWithinLength: the digit and letter counts it sums are the ASCII ones. For the URL `一`, which Python finds both numeric and alphabetic, the program's digit and letter counts sum to 2 while the URL length is 1.
- FeatureVectorCharacterBudget: the same ASCII restriction; with non-ASCII numerals and letters the program's `count-digits` and `count-letters` slots can exceed the budget.
- ExtractFeatures: whether `abnormal_url` raises is an input (`hostnameTestRaises`), because it depends on `urlparse` and on Python's regex compiler. The other library calls cannot raise on a string URL, since `get_tld` is called with `fail_silently=True` and the later `urlparse` calls parse the same URL.
- ComponentFeaturesWithinUrl: assumes netloc and path are contiguous slices of the URL. `urlparse` strips leading control and space characters and removes tab, CR and LF characters, so a URL with those characters may break that assumption.
- FdLength: models the bare `except` as the `IndexError` of a one-piece split. For a string path, that is the only exception the expression can raise.
- The shortener pattern lists some literals twice (`t.co`, `goo.gl`, `ow.ly`, `bit.ly`, `x.co`, `is.gd`, `tr.im`). They are kept as written; repeats do not change which URLs match.
