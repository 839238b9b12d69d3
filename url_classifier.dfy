/** The lexical features the URL classifier computes from a URL's text, and
    the fixed-order 21-slot vector it hands to the trained model. */
module UrlClassifier {
  import opened Wrappers
  import opened PyStr
  import LiteralSearch
  import PyDict

  /** What the library calls this module does not model report for one URL:
      `urlparse(url).netloc` and `.path`, `get_tld(url, fail_silently=True)`,
      whether the IP-address regex of `having_ip_address` found a match,
      whether `abnormal_url`'s hostname test succeeded, and whether that test
      raised instead: `urlparse` raises `ValueError` on an unbalanced `[`,
      and `re.search` raises `re.error` when the hostname is not a valid
      pattern (`+a`, `a(b`). */
  datatype LibraryResults = LibraryResults(
    netloc: string,
    path: string,
    tld: Option<string>,
    ipPatternFound: bool,
    hostnameFound: bool,
    hostnameTestRaises: bool)

  // ---------------------------------------------------------------------
  // Substring counters, all Python's `url.count(needle)`

  function CountDot(url: string): (r: nat)
    ensures r == multiset(url)['.']
    ensures r <= |url|
  {
    CountSingleChar(url, '.');
    Count(url, ".")
  }

  /** Non-overlapping: `"wwww"` holds one counted `"www"`. */
  function CountWww(url: string): (r: nat)
    ensures 3 * r <= |url|
    ensures 3 * r <= multiset(url)['w']
  {
    CountTimesCharBound(url, "www", 'w');
    assert multiset("www")['w'] == 3;
    Count(url, "www")
  }

  function CountAtrate(url: string): (r: nat)
    ensures r == multiset(url)['@']
    ensures r <= |url|
  {
    CountSingleChar(url, '@');
    Count(url, "@")
  }

  function CountHttps(url: string): (r: nat)
    ensures 5 * r <= |url|
  {
    Count(url, "https")
  }

  function CountHttp(url: string): (r: nat)
    ensures 4 * r <= |url|
  {
    Count(url, "http")
  }

  function CountPer(url: string): (r: nat)
    ensures r == multiset(url)['%']
    ensures r <= |url|
  {
    CountSingleChar(url, '%');
    Count(url, "%")
  }

  function CountQues(url: string): (r: nat)
    ensures r == multiset(url)['?']
    ensures r <= |url|
  {
    CountSingleChar(url, '?');
    Count(url, "?")
  }

  function CountHyphen(url: string): (r: nat)
    ensures r == multiset(url)['-']
    ensures r <= |url|
  {
    CountSingleChar(url, '-');
    Count(url, "-")
  }

  function CountEqual(url: string): (r: nat)
    ensures r == multiset(url)['=']
    ensures r <= |url|
  {
    CountSingleChar(url, '=');
    Count(url, "=")
  }

  /** Every counted `"https"` begins with an `"http"` that is counted too. */
  lemma HttpAtLeastHttps(url: string)
    ensures CountHttps(url) <= CountHttp(url)
  {
    CountPrefixAtLeast(url, "http", "https");
  }

  /** Counting is non-overlapping: `"www"` starts at two positions of
      `"wwww"`, yet only one is counted. */
  lemma WwwMatchesDoNotOverlap()
    ensures OccursAt("wwww", "www", 0) && OccursAt("wwww", "www", 1)
    ensures CountWww("wwww") == 1
  {
    assert "wwww"[3..] == "w";
  }

  /** `"a.b.c"` holds two dots. */
  lemma DotCountExample()
    ensures CountDot("a.b.c") == 2
  {
    assert "a.b.c"[2..] == "b.c" && "b.c"[2..] == "c";
  }

  // ---------------------------------------------------------------------
  // Path-based counts (`urlparse(url).path` is given)

  function NoOfDir(path: string): (r: nat)
    ensures r == multiset(path)['/']
    ensures r <= |path|
  {
    CountSingleChar(path, '/');
    Count(path, "/")
  }

  function NoOfEmbed(path: string): (r: nat)
    ensures 2 * r <= |path|
  {
    Count(path, "//")
  }

  /** Each counted `"//"` accounts for two of the path's slashes. */
  lemma DirAtLeastTwiceEmbed(path: string)
    ensures 2 * NoOfEmbed(path) <= NoOfDir(path)
  {
    CountTimesCharBound(path, "//", '/');
    assert multiset("//")['/'] == 2;
  }

  // ---------------------------------------------------------------------
  // Character classes, over the ASCII alphabet

  predicate IsAsciiDigit(c: char)
  {
    '0' <= c <= '9'
  }

  predicate IsAsciiLetter(c: char)
  {
    'a' <= c <= 'z' || 'A' <= c <= 'Z'
  }

  /** `sum(i.isnumeric() for i in url)`. */
  function DigitCount(url: string): (r: nat)
    ensures r <= |url|
    decreases |url|
  {
    if url == [] then 0
    else (if IsAsciiDigit(url[0]) then 1 else 0) + DigitCount(url[1..])
  }

  /** `sum(i.isalpha() for i in url)`. */
  function LetterCount(url: string): (r: nat)
    ensures r <= |url|
    decreases |url|
  {
    if url == [] then 0
    else (if IsAsciiLetter(url[0]) then 1 else 0) + LetterCount(url[1..])
  }

  /** The digit count is the sum of the ten single-digit counts. */
  ghost function DigitTally(s: string): nat
  {
    multiset(s)['0'] + multiset(s)['1'] + multiset(s)['2'] + multiset(s)['3'] + multiset(s)['4']
    + multiset(s)['5'] + multiset(s)['6'] + multiset(s)['7'] + multiset(s)['8'] + multiset(s)['9']
  }

  lemma {:induction false} DigitCountIsTally(s: string)
    ensures DigitCount(s) == DigitTally(s)
    decreases |s|
  {
    if s != [] {
      forall c: char ensures multiset(s)[c] == (if s[0] == c then 1 else 0) + multiset(s[1..])[c] {
        MultiplicityCons(s, c);
      }
      DigitCountIsTally(s[1..]);
    }
  }

  /** `digit_count(url)` equals `url.count('0') + ... + url.count('9')`. */
  lemma {:induction false} DigitCountByDigit(url: string)
    ensures DigitCount(url) == Count(url, "0") + Count(url, "1") + Count(url, "2")
      + Count(url, "3") + Count(url, "4") + Count(url, "5") + Count(url, "6")
      + Count(url, "7") + Count(url, "8") + Count(url, "9")
  {
    DigitCountIsTally(url);
    CountSingleChar(url, '0'); CountSingleChar(url, '1'); CountSingleChar(url, '2');
    CountSingleChar(url, '3'); CountSingleChar(url, '4'); CountSingleChar(url, '5');
    CountSingleChar(url, '6'); CountSingleChar(url, '7'); CountSingleChar(url, '8');
    CountSingleChar(url, '9');
  }

  /** How many of the six counted punctuation characters `s` holds. */
  ghost function PunctuationTally(s: string): nat
  {
    multiset(s)['.'] + multiset(s)['@'] + multiset(s)['%']
    + multiset(s)['?'] + multiset(s)['-'] + multiset(s)['=']
  }

  /** No character is in two of the classes, so together they never exceed the length. */
  lemma {:induction false} ClassTallyBound(s: string)
    ensures DigitCount(s) + LetterCount(s) + PunctuationTally(s) <= |s|
    decreases |s|
  {
    if s != [] {
      assert s == [s[0]] + s[1..];
      assert multiset(s) == multiset{s[0]} + multiset(s[1..]);
      ClassTallyBound(s[1..]);
    }
  }

  /** On the ASCII alphabet digits and letters are disjoint. */
  lemma {:induction false} DigitsAndLettersWithinLength(url: string)
    ensures DigitCount(url) + LetterCount(url) <= UrlLength(url)
  {
    ClassTallyBound(url);
  }

  /** The six single-character counters, the digit count and the letter
      count count disjoint sets of positions of the URL. */
  lemma {:induction false} CharacterFeaturesWithinLength(url: string)
    ensures CountDot(url) + CountAtrate(url) + CountPer(url) + CountQues(url)
      + CountHyphen(url) + CountEqual(url) + DigitCount(url) + LetterCount(url)
      <= UrlLength(url)
  {
    ClassTallyBound(url);
  }

  // ---------------------------------------------------------------------
  // Lengths

  /** `len(str(url))`; `str` of a string is the string itself. */
  function UrlLength(url: string): (r: nat)
    ensures r == |url|
  {
    |url|
  }

  /** `len(urlparse(url).netloc)`. */
  function HostnameLength(netloc: string): (r: nat)
    ensures r == |netloc|
  {
    |netloc|
  }

  /** `len(urlpath.split('/')[1])`, or 0 when the split has no second piece
      (the `IndexError` the source catches). */
  function FdLength(path: string): (r: nat)
    ensures '/' !in path ==> r == 0
    ensures '/' in path ==> r < |path|
  {
    var pieces := Split(path, '/');
    if |pieces| > 1 then
      assert '/' in multiset(path);
      FdLengthBetweenSlashes(path, IndexOf(path, '/'));
      |pieces[1]|
    else 0
  }

  /** The length of the piece after the path's first `/`: the distance from
      that `/` to the next `/`, or to the end of the path. */
  lemma FdLengthBetweenSlashes(path: string, i: nat)
    requires i < |path| && path[i] == '/' && '/' !in path[..i]
    ensures var pieces := Split(path, '/');
      |pieces| > 1 && i + 1 + |pieces[1]| <= |path|
      && '/' !in path[i + 1..i + 1 + |pieces[1]|]
      && (i + 1 + |pieces[1]| == |path| || path[i + 1 + |pieces[1]|] == '/')
  {
    SplitSecondPiece(path, '/', i);
    var v := path[i + 1..];
    SplitHead(v, '/');
    var h := Split(v, '/')[0];
    assert path[i + 1..i + 1 + |h|] == v[..|h|];
    assert i + 1 + |h| < |path| ==> path[i + 1 + |h|] == v[|h|];
  }

  /** `tld_length(get_tld(url, fail_silently=True))`: `len(None)` raises and
      the source's handler returns -1. */
  function TldLength(tld: Option<string>): (r: int)
    ensures r >= -1
    ensures r == -1 <==> tld.None?
    ensures tld.Some? ==> r == |tld.value|
  {
    match tld
    case None => -1
    case Some(t) => |t|
  }

  /** When `urlparse` hands back pieces of the URL's own text, the
      component features are bounded by the URL's. */
  lemma ComponentFeaturesWithinUrl(url: string, netloc: string, path: string)
    requires Contains(url, netloc) && Contains(url, path)
    ensures HostnameLength(netloc) <= UrlLength(url)
    ensures NoOfDir(path) <= Count(url, "/")
    ensures FdLength(path) <= UrlLength(url)
  {
    ContainsCharBound(url, path, '/');
    CountSingleChar(url, '/');
  }

  // ---------------------------------------------------------------------
  // Keyword tests, `1 if re.search(a|b|..., url) else 0`

  const SuspiciousKeywords: seq<string> :=
    ["PayPal", "login", "signin", "bank", "account", "update", "free", "lucky",
     "service", "bonus", "ebayisapi", "webscr"]

  const ShortenerDomains: seq<string> :=
    ["bit.ly", "goo.gl", "shorte.st", "go2l.ink", "x.co", "ow.ly", "t.co", "tinyurl", "tr.im",
     "is.gd", "cli.gs", "yfrog.com", "migre.me", "ff.im", "tiny.cc", "url4.eu", "twit.ac",
     "su.pr", "twurl.nl", "snipurl.com", "short.to", "BudURL.com", "ping.fm", "post.ly",
     "Just.as", "bkite.com", "snipr.com", "fic.kr", "loopt.us", "doiop.com", "short.ie",
     "kl.am", "wp.me", "rubyurl.com", "om.ly", "to.ly", "bit.do", "t.co", "lnkd.in", "db.tt",
     "qr.ae", "adf.ly", "goo.gl", "bitly.com", "cur.lv", "tinyurl.com", "ow.ly", "bit.ly",
     "ity.im", "q.gs", "is.gd", "po.st", "bc.vc", "twitthis.com", "u.to", "j.mp",
     "buzurl.com", "cutt.us", "u.bb", "yourls.org", "x.co", "prettylinkpro.com", "scrnch.me",
     "filoops.info", "vzturl.com", "qr.net", "1url.com", "tweez.me", "v.gd", "tr.im",
     "link.zip.net"]

  function ShorteningService(url: string): (r: nat)
    ensures r == 0 || r == 1
    ensures r == 1 <==> LiteralSearch.ContainsAny(url, ShortenerDomains)
  {
    LiteralSearch.SearchFindsAny(ShortenerDomains, url);
    if LiteralSearch.Search(ShortenerDomains, url).Some? then 1 else 0
  }

  function SuspiciousWords(url: string): (r: nat)
    ensures r == 0 || r == 1
    ensures r == 1 <==> LiteralSearch.ContainsAny(url, SuspiciousKeywords)
  {
    LiteralSearch.SearchFindsAny(SuspiciousKeywords, url);
    if LiteralSearch.Search(SuspiciousKeywords, url).Some? then 1 else 0
  }

  /** `having_ip_address`, from the outcome of its regex search. */
  function HavingIpAddress(lib: LibraryResults): (r: nat)
    ensures r <= 1
    ensures r == 1 <==> lib.ipPatternFound
  {
    if lib.ipPatternFound then 1 else 0
  }

  /** `abnormal_url`, from the outcome of its hostname test. */
  function AbnormalUrl(lib: LibraryResults): (r: nat)
    ensures r <= 1
    ensures r == 1 <==> lib.hostnameFound
  {
    if lib.hostnameFound then 1 else 0
  }

  // ---------------------------------------------------------------------
  // The feature vector

  /** The keys of the features dict, in the order the model expects. */
  const FeatureKeys: seq<string> :=
    ["use_of_ip", "abnormal_url", "count.", "count-www", "count@", "count_dir",
     "count_embed_domian", "short_url", "count-https", "count-http", "count%", "count?",
     "count-", "count=", "url_length", "hostname_length", "sus_url", "fd_length",
     "tld_length", "count-digits", "count-letters"]

  /** The value the dict literal writes under the key `FeatureKeys[k]`. */
  function Feature(k: nat, url: string, lib: LibraryResults): (r: int)
    requires k < |FeatureKeys|
    ensures r >= -1
    ensures r == -1 ==> k == 18 && lib.tld.None?
  {
    match k
    case 0 => HavingIpAddress(lib)          // use_of_ip
    case 1 => AbnormalUrl(lib)              // abnormal_url
    case 2 => CountDot(url)                 // count.
    case 3 => CountWww(url)                 // count-www
    case 4 => CountAtrate(url)              // count@
    case 5 => NoOfDir(lib.path)             // count_dir
    case 6 => NoOfEmbed(lib.path)           // count_embed_domian
    case 7 => ShorteningService(url)        // short_url
    case 8 => CountHttps(url)               // count-https
    case 9 => CountHttp(url)                // count-http
    case 10 => CountPer(url)                // count%
    case 11 => CountQues(url)               // count?
    case 12 => CountHyphen(url)             // count-
    case 13 => CountEqual(url)              // count=
    case 14 => UrlLength(url)               // url_length
    case 15 => HostnameLength(lib.netloc)   // hostname_length
    case 16 => SuspiciousWords(url)         // sus_url
    case 17 => FdLength(lib.path)           // fd_length
    case 18 => TldLength(lib.tld)           // tld_length
    case 19 => DigitCount(url)              // count-digits
    case _ => LetterCount(url)              // count-letters
  }

  /** The 21 feature names are pairwise different, so the dict keeps all 21 items. */
  lemma FeatureKeysDistinct()
    ensures |FeatureKeys| == 21 && PyDict.Distinct(FeatureKeys)
  {
  }

  /** The 21 values the dict literal writes, in writing order. */
  function FeatureVector(url: string, lib: LibraryResults): (v: seq<int>)
    ensures |v| == |FeatureKeys|
    ensures forall k {:trigger v[k]} :: 0 <= k < |FeatureKeys| ==> v[k] == Feature(k, url, lib)
  {
    seq(|FeatureKeys|, k requires 0 <= k < |FeatureKeys| => Feature(k, url, lib))
  }

  /** `extract_features(url)`: `None` when `abnormal_url` raises, which
      happens before the dict is built; otherwise `list(features.values())`.
      Since no key is written twice, the dict keeps every item and hands the
      values back in writing order. */
  function ExtractFeatures(url: string, lib: LibraryResults): (r: Option<seq<int>>)
    ensures r.None? <==> lib.hostnameTestRaises
    ensures r.Some? ==> r.value == FeatureVector(url, lib)
  {
    if lib.hostnameTestRaises then None
    else
      FeatureKeysDistinct();
      PyDict.LiteralValues(FeatureKeys, FeatureVector(url, lib));
      Some(PyDict.Values(PyDict.FromLiteral(PyDict.Zip(FeatureKeys, FeatureVector(url, lib)))))
  }

  /** The range of the feature written under `FeatureKeys[k]`. */
  lemma FeatureRange(k: nat, url: string, lib: LibraryResults)
    requires k < |FeatureKeys|
    ensures k != 18 ==> Feature(k, url, lib) >= 0
    ensures k == 18 ==> Feature(k, url, lib) >= -1
    ensures k in {0, 1, 7, 16} ==> Feature(k, url, lib) in {0, 1}
  {
  }

  /** Every slot of the vector lies in its feature's range. */
  lemma FeatureVectorRanges(url: string, lib: LibraryResults)
    ensures var v := FeatureVector(url, lib);
      (forall k :: 0 <= k < 21 && k != 18 ==> v[k] >= 0) && v[18] >= -1
      && (forall k :: k in {0, 1, 7, 16} ==> v[k] in {0, 1})
  {
    forall k | 0 <= k < 21 {
      FeatureRange(k, url, lib);
    }
  }

  /** Each substring-count slot is bounded by the `url_length` slot. */
  lemma FeatureVectorCountsWithinLength(url: string, lib: LibraryResults)
    ensures var v := FeatureVector(url, lib);
      v[2] <= v[14] && 3 * v[3] <= v[14] && v[4] <= v[14] && 5 * v[8] <= v[14]
      && 4 * v[9] <= v[14] && v[10] <= v[14] && v[11] <= v[14] && v[12] <= v[14]
      && v[13] <= v[14] && v[19] <= v[14] && v[20] <= v[14]
  {
    var v := FeatureVector(url, lib);
    assert v[14] == |url|;
  }

  /** `count-http` is at least `count-https`, and `count_dir` is at least
      twice `count_embed_domian`. */
  lemma FeatureVectorOrderings(url: string, lib: LibraryResults)
    ensures var v := FeatureVector(url, lib);
      v[8] <= v[9] && 2 * v[6] <= v[5]
  {
    var v := FeatureVector(url, lib);
    assert v[8] == CountHttps(url) && v[9] == CountHttp(url);
    assert v[5] == NoOfDir(lib.path) && v[6] == NoOfEmbed(lib.path);
    HttpAtLeastHttps(url);
    DirAtLeastTwiceEmbed(lib.path);
  }

  /** The single-character, digit and letter slots count disjoint positions
      of the URL, so together they stay within the `url_length` slot. */
  lemma FeatureVectorCharacterBudget(url: string, lib: LibraryResults)
    ensures var v := FeatureVector(url, lib);
      v[2] + v[4] + v[10] + v[11] + v[12] + v[13] + v[19] + v[20] <= v[14]
  {
    var v := FeatureVector(url, lib);
    assert v[2] == CountDot(url) && v[4] == CountAtrate(url);
    assert v[10] == CountPer(url) && v[11] == CountQues(url);
    assert v[12] == CountHyphen(url) && v[13] == CountEqual(url);
    assert v[14] == UrlLength(url) && v[19] == DigitCount(url) && v[20] == LetterCount(url);
    CharacterFeaturesWithinLength(url);
  }
}
