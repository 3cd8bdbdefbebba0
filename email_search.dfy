/**
 * email_search.py: normalise a domain or URL to a base URL, crawl a bounded
 * worklist of pages collecting the addresses visible on them, guess addresses
 * for the candidate names, and return the sorted set.
 *
 * The network is a parameter: `fetch(url)` is what `_safe_get(url)` returns
 * (the page text, or None), and `hrefsOf(text)` is the list of `href`
 * attributes of the page's `<a>` elements, in document order, that
 * BeautifulSoup yields. `verifyEmail(address, domain)` answers for
 * `utils.verify_email`.
 */
module EmailSearch {
  import opened Wrappers
  import opened PyString
  import Utils

  // ---------------------------------------------------------------------------
  // Configuration
  // ---------------------------------------------------------------------------

  /** `DEFAULT_PATHS`. */
  const DefaultPaths: seq<string> := ["", "contact", "team", "about", "our-team", "leadership", "who-we-are"]

  /** The extensions `BINARY_EXT_RE` accepts: `pdf|png|jpe?g|gif|zip|docx?|pptx?`. */
  const BinaryExtensions: seq<string> := ["pdf", "png", "jpg", "jpeg", "gif", "zip", "doc", "docx", "ppt", "pptx"]

  /** `s` ends with "." and a binary extension, ignoring case. */
  predicate EndsWithBinaryExt(s: string) {
    exists k :: 0 <= k < |BinaryExtensions| && EndsWith(Lower(s), "." + BinaryExtensions[k])
  }

  /** `BINARY_EXT_RE.search(url)`: `$` matches at the very end or just before a final newline. */
  predicate HasBinaryExt(url: string) {
    || EndsWithBinaryExt(url)
    || (url != [] && url[|url| - 1] == '\n' && EndsWithBinaryExt(url[..|url| - 1]))
  }

  /** `BLACKLISTED_EMAIL_DOMAINS`. */
  const BlacklistedEmailDomains: set<string> :=
    {"linkedin.com", "facebook.com", "twitter.com", "instagram.com", "youtube.com", "example.com"}

  /** `_email_ok`: no blacklisted domain occurs anywhere in the address, as a substring. */
  predicate EmailOk(email: string) {
    forall bad | bad in BlacklistedEmailDomains :: !Contains(email, bad)
  }

  /** The blacklist is a substring test: it also rejects a domain that merely contains a blacklisted one. */
  lemma EmailOkIsSubstringTest()
    ensures !EmailOk("jo@example.com")
    ensures !EmailOk("jo@myexample.com")
  {
    var s, t := "jo@example.com", "jo@myexample.com";
    assert StartsWith(s[3..], "example.com");
    ContainsInSuffix(s, 3, "example.com");
    assert StartsWith(t[5..], "example.com");
    ContainsInSuffix(t, 5, "example.com");
  }

  /** An address on an unrelated domain passes. */
  lemma EmailOkPlainAddress()
    ensures EmailOk("jo@acme.test")
  {
    var s := "jo@acme.test";
    forall bad | bad in BlacklistedEmailDomains
      ensures !Contains(s, bad)
    {
      // Each blacklisted domain has a character that `s` lacks.
      var i: nat := if bad == "twitter.com" || bad == "example.com" then 1 else 0;
      assert i < |bad| && bad[i] !in s;
      ContainsAllChars(s, bad, i);
    }
  }

  // ---------------------------------------------------------------------------
  // EMAIL_RE = [a-zA-Z0-9_.+-]+@[a-zA-Z0-9-]+\.[a-zA-Z0-9-.]+
  // ---------------------------------------------------------------------------

  /** The three character classes of the address pattern. */
  datatype CharClass = LocalPart | HostPart | TailPart

  predicate InClass(c: char, cls: CharClass) {
    match cls
    case LocalPart => IsLetter(c) || IsDigit(c) || c == '_' || c == '.' || c == '+' || c == '-'
    case HostPart => IsLetter(c) || IsDigit(c) || c == '-'
    case TailPart => IsLetter(c) || IsDigit(c) || c == '-' || c == '.'
  }

  /** Lower-casing keeps every character in its class and out of the others. */
  lemma LowerCharClass(c: char, cls: CharClass)
    ensures InClass(LowerChar(c), cls) <==> InClass(c, cls)
  {
  }

  /**
   * `w` is one whole match of the address pattern, with its "@" at `at` and
   * the "." that ends the host part at `dot`.
   */
  predicate ShapedAt(w: string, at: nat, dot: nat) {
    && 0 < at && at + 1 < dot && dot + 1 < |w|
    && w[at] == '@' && w[dot] == '.'
    && (forall k :: 0 <= k < at ==> InClass(w[k], LocalPart))
    && (forall k :: at < k < dot ==> InClass(w[k], HostPart))
    && (forall k :: dot < k < |w| ==> InClass(w[k], TailPart))
  }

  /** `w` is a whole match of the address pattern. */
  ghost predicate IsAddress(w: string) {
    exists at: nat, dot: nat :: ShapedAt(w, at, dot)
  }

  lemma LowerShapedAt(w: string, at: nat, dot: nat)
    requires ShapedAt(w, at, dot)
    ensures ShapedAt(Lower(w), at, dot)
  {
    var v := Lower(w);
    forall k | 0 <= k < |w|
      ensures InClass(v[k], LocalPart) <==> InClass(w[k], LocalPart)
      ensures InClass(v[k], HostPart) <==> InClass(w[k], HostPart)
      ensures InClass(v[k], TailPart) <==> InClass(w[k], TailPart)
    {
      LowerCharClass(w[k], LocalPart);
      LowerCharClass(w[k], HostPart);
      LowerCharClass(w[k], TailPart);
    }
  }

  /** The end of the longest run of `cls` characters starting at `i`. */
  function RunEnd(s: string, i: nat, cls: CharClass): (e: nat)
    requires i <= |s|
    ensures i <= e <= |s|
    ensures forall k :: i <= k < e ==> InClass(s[k], cls)
    ensures e == |s| || !InClass(s[e], cls)
    decreases |s| - i
  {
    if i < |s| && InClass(s[i], cls) then RunEnd(s, i + 1, cls) else i
  }

  /** Positions of a match: the "@", the "." after the host, and the end. */
  datatype Match = Match(at: nat, dot: nat, end: nat)

  /**
   * The match of the address pattern that starts at `i`, if any. Each class
   * excludes the literal that follows it ("@" and "." respectively), so the
   * greedy runs never have to give characters back.
   */
  function MatchAt(s: string, i: nat): (r: Option<Match>)
    requires i <= |s|
    ensures r.Some? ==> i < r.value.at < r.value.dot < r.value.end <= |s|
    ensures r.Some? ==> ShapedAt(s[i..r.value.end], r.value.at - i, r.value.dot - i)
  {
    var at := RunEnd(s, i, LocalPart);
    if at == i || at == |s| || s[at] != '@' then None
    else
      var dot := RunEnd(s, at + 1, HostPart);
      if dot == at + 1 || dot == |s| || s[dot] != '.' then None
      else
        var end := RunEnd(s, dot + 1, TailPart);
        if end == dot + 1 then None
        else
          var w := s[i..end];
          assert forall k :: 0 <= k < |w| ==> w[k] == s[i + k];
          Some(Match(at, dot, end))
  }

  /** `EMAIL_RE.findall(s[i..])`: the leftmost non-overlapping matches, in order. */
  function FindAll(s: string, i: nat): (r: seq<string>)
    requires i <= |s|
    ensures forall k :: 0 <= k < |r| ==> IsAddress(r[k])
    decreases |s| - i
  {
    if i == |s| then []
    else
      match MatchAt(s, i)
      case Some(m) =>
        assert ShapedAt(s[i..m.end], m.at - i, m.dot - i);
        [s[i..m.end]] + FindAll(s, m.end)
      case None => FindAll(s, i + 1)
  }

  /**
   * `_extract_emails_from_text`: the lower-cased matches that pass `_email_ok`.
   * Every result is lower-case, blacklist-free and an address-shaped match;
   * each lower-cased match is present exactly when it passes the blacklist.
   */
  function ExtractEmails(text: string): (r: set<string>)
    ensures forall e | e in r :: IsLower(e) && EmailOk(e) && IsAddress(e)
    ensures forall m | m in FindAll(text, 0) :: Lower(m) in r <==> EmailOk(Lower(m))
    ensures forall e | e in r :: exists m :: m in FindAll(text, 0) && e == Lower(m)
  {
    var r := set m | m in FindAll(text, 0) && EmailOk(Lower(m)) :: Lower(m);
    assert forall e | e in r :: IsAddress(e) by {
      forall e | e in r
        ensures IsAddress(e)
      {
        var m :| m in FindAll(text, 0) && EmailOk(Lower(m)) && e == Lower(m);
        var at: nat, dot: nat :| ShapedAt(m, at, dot);
        LowerShapedAt(m, at, dot);
      }
    }
    r
  }

  lemma OneAddressRuns(s: string)
    requires s == " Jo@Acme.test"
    ensures RunEnd(s, 0, LocalPart) == 0 && RunEnd(s, 1, LocalPart) == 3
    ensures RunEnd(s, 4, HostPart) == 8 && RunEnd(s, 9, TailPart) == 13
  {
    assert RunEnd(s, 1, LocalPart) == 3 by {
      assert RunEnd(s, 3, LocalPart) == 3;
    }
    assert RunEnd(s, 4, HostPart) == 8 by {
      assert RunEnd(s, 8, HostPart) == 8;
    }
    assert RunEnd(s, 9, TailPart) == 13 by {
      assert RunEnd(s, 13, TailPart) == 13;
    }
  }

  lemma OneAddressMatches(s: string)
    requires s == " Jo@Acme.test"
    ensures MatchAt(s, 0).None? && MatchAt(s, 1) == Some(Match(3, 8, 13))
  {
    OneAddressRuns(s);
  }

  lemma OneAddressFound(s: string)
    requires s == " Jo@Acme.test"
    ensures FindAll(s, 0) == [s[1..13]] && s[1..13] == "Jo@Acme.test"
  {
    OneAddressMatches(s);
    assert FindAll(s, 13) == [];
    assert FindAll(s, 1) == [s[1..13]] + FindAll(s, 13);
  }

  /** The scanner skips what cannot start a match and takes the whole address. */
  lemma FindAllOneAddress(s: string)
    requires s == " Jo@Acme.test"
    ensures FindAll(s, 0) == ["Jo@Acme.test"]
  {
    OneAddressFound(s);
  }

  lemma LowerJoAcme()
    ensures Lower("Jo@Acme.test") == "jo@acme.test"
  {
    var w, v := "Jo@Acme.test", "jo@acme.test";
    assert forall i :: 0 <= i < |w| ==> Lower(w)[i] == v[i];
  }

  /** A text whose only match is `m` yields exactly `m` lower-cased when that passes the blacklist. */
  lemma ExtractSingle(text: string, m: string)
    requires FindAll(text, 0) == [m] && EmailOk(Lower(m))
    ensures ExtractEmails(text) == {Lower(m)}
  {
    var r := ExtractEmails(text);
    assert m in FindAll(text, 0);
    forall e | e in r
      ensures e == Lower(m)
    {
    }
  }

  /** A text holding one address after a separator yields that address, lower-cased. */
  lemma ExtractOneAddress()
    ensures ExtractEmails(" Jo@Acme.test") == {"jo@acme.test"}
  {
    FindAllOneAddress(" Jo@Acme.test");
    EmailOkPlainAddress();
    LowerJoAcme();
    ExtractSingle(" Jo@Acme.test", "Jo@Acme.test");
  }

  // ---------------------------------------------------------------------------
  // Base URL and links
  // ---------------------------------------------------------------------------

  /** `HTTP_RE.match(s)`: `s` starts with "http://" or "https://", ignoring case. */
  predicate HasHttpScheme(s: string) {
    StartsWith(Lower(s), "http://") || StartsWith(Lower(s), "https://")
  }

  /** The stripped input with "https://" put in front when it has no http(s) scheme. */
  function WithScheme(url: string): string {
    if HasHttpScheme(url) then url else "https://" + url
  }

  /**
   * `_normalise_base`. None exactly for a missing or empty input; otherwise
   * the schemed, stripped input without its trailing slashes, which is never
   * empty and never ends with "/".
   */
  function NormaliseBase(domainOrUrl: Option<string>): (r: Option<string>)
    ensures r.None? <==> domainOrUrl.None? || domainOrUrl.value == ""
    ensures r.Some? ==> r.value != [] && r.value[|r.value| - 1] != '/'
    ensures r.Some? ==>
      var u := WithScheme(Strip(domainOrUrl.value));
      && |r.value| <= |u| && r.value == u[..|r.value|]
      && forall k :: |r.value| <= k < |u| ==> u[k] == '/'
  {
    if domainOrUrl.None? || domainOrUrl.value == "" then None
    else
      var u := WithScheme(Strip(domainOrUrl.value));
      WithSchemeFifth(Strip(domainOrUrl.value));
      var r := RStrip(u, '/');
      RStripKeeps(u, '/', 4);
      Some(r)
  }

  /** A schemed URL has no "/" at index 4 (the ':' of "http:" or the 's' of "https"). */
  lemma WithSchemeFifth(url: string)
    ensures |WithScheme(url)| > 4 && WithScheme(url)[4] != '/'
  {
    var u := WithScheme(url);
    if HasHttpScheme(url) {
      assert Lower(u)[4] == LowerChar(u[4]);
      assert Lower(u)[4] == ':' || Lower(u)[4] == 's';
    } else {
      assert u[4] == 's';
    }
  }

  /** For a non-empty stripped input, normalising is scheming and rstrip("/"). */
  lemma NormaliseStripped(x: string)
    requires x != [] && IsStripped(x)
    ensures NormaliseBase(Some(x)) == Some(RStrip(WithScheme(x), '/'))
  {
  }

  /** A bare domain gets the https scheme and nothing else changes. */
  lemma NormaliseAddsScheme(x: string)
    requires x != [] && IsStripped(x) && !HasHttpScheme(x) && x[|x| - 1] != '/'
    ensures NormaliseBase(Some(x)) == Some("https://" + x)
  {
    NormaliseStripped(x);
    var u := "https://" + x;
    assert u[|u| - 1] == x[|x| - 1];
  }

  /** "example.com" becomes "https://example.com". */
  lemma NormaliseBareDomain(x: string)
    requires x == "example.com"
    ensures NormaliseBase(Some(x)) == Some("https://" + x)
  {
    assert IsStripped(x) && IsLower(x);
    assert !StartsWith(x, "http://") && !StartsWith(x, "https://") by {
      assert x[0] == 'e';
    }
    NormaliseAddsScheme(x);
  }

  /** A whitespace-only input is not empty: it normalises to the bare scheme "https:". */
  lemma NormaliseBlank()
    ensures NormaliseBase(Some("  ")) == Some("https:")
  {
    assert Strip("  ") == [] by {
      assert !IsStripped("  ");
    }
    assert WithScheme([]) == "https://" by {
      assert Lower([]) == [];
    }
    RStripTwoSlashes("https:");
    assert "https:" + "//" == "https://";
  }

  lemma RStripTwoSlashes(x: string)
    requires x != [] && x[|x| - 1] != '/'
    ensures RStrip(x + "//", '/') == x
  {
    assert (x + "//")[..|x + "//"| - 1] == x + "/";
    assert (x + "/")[..|x + "/"| - 1] == x;
  }

  /** Normalising a normalised base that kept its scheme changes nothing. */
  lemma NormaliseBaseStable(base: string)
    requires base != [] && IsStripped(base) && HasHttpScheme(base) && base[|base| - 1] != '/'
    ensures NormaliseBase(Some(base)) == Some(base)
  {
  }

  /** A schemed input that ends in "//" loses the slashes, and with them the scheme if nothing followed it. */
  lemma NormaliseDropsSlashes(x: string)
    requires x != [] && x[|x| - 1] != '/' && IsStripped(x) && HasHttpScheme(x + "//")
    ensures NormaliseBase(Some(x + "//")) == Some(x)
  {
    assert IsStripped(x + "//");
    NormaliseStripped(x + "//");
    RStripTwoSlashes(x);
  }

  /** Normalising is not idempotent in general: "http://" loses its slashes and then its scheme. */
  lemma NormaliseBaseNotIdempotent(x: string)
    requires x == "http:"
    ensures NormaliseBase(Some(x + "//")) == Some(x)
    ensures NormaliseBase(Some(x)) == Some("https://" + x)
  {
    assert IsLower(x + "//") && IsLower(x);
    assert StartsWith(x + "//", "http://");
    assert |x| < |"http://"|;
    NormaliseDropsSlashes(x);
    NormaliseStripped(x);
    assert !HasHttpScheme(x);
    assert RStrip("https://" + x, '/') == "https://" + x;
  }

  /**
   * `_absolute`: an http(s) link as it is, a root-relative link appended to
   * the base, anything else None.
   */
  function Absolute(base: string, link: string): (r: Option<string>)
    ensures HasHttpScheme(link) ==> r == Some(link)
    ensures !HasHttpScheme(link) && StartsWith(link, "/") ==> r == Some(base + link)
    ensures !HasHttpScheme(link) && !StartsWith(link, "/") ==> r == None
  {
    if HasHttpScheme(link) then Some(link)
    else if StartsWith(link, "/") then Some(base + link)
    else None
  }

  /** With a schemed base every absolute link has a scheme, and none is empty. */
  lemma AbsoluteKeepsScheme(base: string, link: string)
    requires HasHttpScheme(base)
    ensures Absolute(base, link).Some? ==> HasHttpScheme(Absolute(base, link).value) && Absolute(base, link).value != ""
  {
    if !HasHttpScheme(link) && StartsWith(link, "/") {
      LowerConcat(base, link);
      assert Lower(base + link)[..|Lower(base)|] == Lower(base);
    }
  }

  /** The href test of the crawl: one of the three keywords occurs in the lower-cased href. */
  predicate HasLinkKeyword(href: string) {
    Contains(Lower(href), "contact") || Contains(Lower(href), "team") || Contains(Lower(href), "about")
  }

  /** The URL one href contributes to the worklist, if any. */
  function LinkFrom(base: string, href: string, visited: set<string>): (r: Option<string>)
    ensures r.Some? ==> r.value != "" && r.value !in visited && !HasBinaryExt(r.value)
    ensures r.Some? ==> HasLinkKeyword(href) && r == Absolute(base, href)
    ensures r.Some? <==>
      && HasLinkKeyword(href) && Absolute(base, href).Some?
      && var u := Absolute(base, href).value; u != "" && u !in visited && !HasBinaryExt(u)
  {
    if !HasLinkKeyword(href) then None
    else
      var next := Absolute(base, href);
      if next.Some? && next.value != "" && next.value !in visited && !HasBinaryExt(next.value) then next else None
  }

  /**
   * The URLs the hrefs of one page append to the worklist, in href order:
   * a URL is appended exactly when some href contributes it.
   */
  function NewLinks(base: string, hrefs: seq<string>, visited: set<string>): (r: seq<string>)
    ensures |r| <= |hrefs|
    ensures forall k :: 0 <= k < |r| ==> r[k] != "" && r[k] !in visited && !HasBinaryExt(r[k])
    ensures forall u :: u in r <==> exists k :: 0 <= k < |hrefs| && LinkFrom(base, hrefs[k], visited) == Some(u)
    decreases |hrefs|
  {
    if hrefs == [] then []
    else
      var prev := NewLinks(base, hrefs[..|hrefs| - 1], visited);
      assert forall k :: 0 <= k < |hrefs| - 1 ==> hrefs[..|hrefs| - 1][k] == hrefs[k];
      match LinkFrom(base, hrefs[|hrefs| - 1], visited)
      case Some(u) => prev + [u]
      case None => prev
  }

  /** The links of a page are those of its first hrefs followed by those of the rest. */
  lemma {:induction false} NewLinksConcat(base: string, a: seq<string>, b: seq<string>, visited: set<string>)
    ensures NewLinks(base, a + b, visited) == NewLinks(base, a, visited) + NewLinks(base, b, visited)
    decreases |b|
  {
    if b == [] {
      assert a + b == a;
    } else {
      var b0 := b[..|b| - 1];
      var tail := match LinkFrom(base, b[|b| - 1], visited) case Some(u) => [u] case None => [];
      assert (a + b)[..|a + b| - 1] == a + b0;
      assert (a + b)[|a + b| - 1] == b[|b| - 1];
      assert NewLinks(base, a + b, visited) == NewLinks(base, a + b0, visited) + tail;
      assert NewLinks(base, b, visited) == NewLinks(base, b0, visited) + tail;
      NewLinksConcat(base, a, b0, visited);
      ConcatAssoc(NewLinks(base, a, visited), NewLinks(base, b0, visited), tail);
    }
  }

  // ---------------------------------------------------------------------------
  // Names
  // ---------------------------------------------------------------------------

  /**
   * The (first, last) pair `_tokenise_names` takes from one full name: the
   * lower-cased first and last whitespace tokens, when there are at least two
   * and both are alphabetic.
   */
  function NamePair(full: string): (r: Option<(string, string)>)
    ensures var w := Words(full);
      r.Some? <==> |w| >= 2 && IsAlpha(w[0]) && IsAlpha(w[|w| - 1])
    ensures var w := Words(full);
      r.Some? ==> r.value == (Lower(w[0]), Lower(w[|w| - 1]))
    ensures r.Some? ==> IsAlpha(r.value.0) && IsAlpha(r.value.1) && IsLower(r.value.0) && IsLower(r.value.1)
  {
    WordsStrip(full);
    var parts := Words(Strip(full));
    if |parts| < 2 then None
    else
      var first, last := Lower(parts[0]), Lower(parts[|parts| - 1]);
      LowerKeepsAlpha(parts[0]);
      LowerKeepsAlpha(parts[|parts| - 1]);
      if !(IsAlpha(first) && IsAlpha(last)) then None else Some((first, last))
  }

  /** The pairs of a list of names, in name order. */
  function NamePairs(names: seq<string>): (r: seq<(string, string)>)
    ensures |r| <= |names|
    ensures forall k :: 0 <= k < |r| ==> IsAlpha(r[k].0) && IsAlpha(r[k].1) && IsLower(r[k].0) && IsLower(r[k].1)
    decreases |names|
  {
    if names == [] then []
    else
      var prev := NamePairs(names[..|names| - 1]);
      match NamePair(names[|names| - 1])
      case Some(p) => prev + [p]
      case None => prev
  }

  /** `_tokenise_names`. */
  method TokeniseNames(names: seq<string>) returns (pairs: seq<(string, string)>)
    ensures pairs == NamePairs(names)
  {
    pairs := [];
    for i := 0 to |names|
      invariant pairs == NamePairs(names[..i])
    {
      assert names[..i + 1][..i] == names[..i];
      var parts := Words(Strip(names[i]));
      WordsStrip(names[i]);
      if |parts| < 2 {
        continue;
      }
      var first, last := Lower(parts[0]), Lower(parts[|parts| - 1]);
      if !(IsAlpha(first) && IsAlpha(last)) {
        continue;
      }
      pairs := pairs + [(first, last)];
    }
    assert names[..|names|] == names;
  }

  /** Tokenising keeps the order of the names: it distributes over concatenation. */
  lemma {:induction false} NamePairsConcat(a: seq<string>, b: seq<string>)
    ensures NamePairs(a + b) == NamePairs(a) + NamePairs(b)
    decreases |b|
  {
    if b == [] {
      assert a + b == a;
    } else {
      var b0 := b[..|b| - 1];
      var tail := match NamePair(b[|b| - 1]) case Some(p) => [p] case None => [];
      assert (a + b)[..|a + b| - 1] == a + b0;
      assert (a + b)[|a + b| - 1] == b[|b| - 1];
      assert NamePairs(a + b) == NamePairs(a + b0) + tail;
      assert NamePairs(b) == NamePairs(b0) + tail;
      NamePairsConcat(a, b0);
      ConcatAssoc(NamePairs(a), NamePairs(b0), tail);
    }
  }

  /** A name with fewer than two tokens contributes nothing. */
  lemma SingleTokenSkipped(full: string)
    requires |Words(full)| < 2
    ensures NamePairs([full]) == []
  {
    assert [full][..0] == [];
  }

  /** "First Last" with alphabetic tokens gives the lower-cased pair. */
  lemma TwoAlphaTokens(first: string, last: string)
    requires IsAlpha(first) && IsAlpha(last)
    ensures NamePairs([first + " " + last]) == [(Lower(first), Lower(last))]
  {
    WordsOfTwo(first, last);
    assert [first + " " + last][..0] == [];
  }

  /** A name whose last token is not alphabetic ("Jo 3rd") contributes nothing. */
  lemma NonAlphaTokenSkipped(first: string, last: string)
    requires first != [] && last != [] && NoSpace(first) && NoSpace(last) && !IsAlpha(last)
    ensures NamePairs([first + " " + last]) == []
  {
    WordsOfTwo(first, last);
    assert [first + " " + last][..0] == [];
  }

  // ---------------------------------------------------------------------------
  // Crawl
  // ---------------------------------------------------------------------------

  /** The inputs of the crawl: the base URL, `max_pages`, and the two network answers. */
  datatype CrawlConfig = CrawlConfig(
    base: string,
    maxPages: int,
    fetch: string -> Option<string>,
    hrefsOf: string -> seq<string>)

  /**
   * The crawl's variables: the worklist `pages` and the index of the next
   * entry, `visited`, the addresses `found` so far, every URL handed to the
   * fetcher in call order (`fetched`), and the pages whose links were
   * collected (`linkPages`).
   */
  datatype CrawlState = CrawlState(
    pages: seq<string>,
    next: nat,
    visited: set<string>,
    found: set<string>,
    fetched: seq<string>,
    linkPages: seq<string>)

  predicate NoDup(xs: seq<string>) {
    forall i, j :: 0 <= i < j < |xs| ==> xs[i] != xs[j]
  }

  lemma NoDupSnoc(xs: seq<string>, x: string)
    requires NoDup(xs) && x !in xs
    ensures NoDup(xs + [x])
  {
  }

  /** How many more visits may still collect links. */
  function Budget(visited: set<string>, maxPages: int): nat {
    if |visited| < maxPages then maxPages - |visited| else 0
  }

  /** `[f"{base}/{p}".rstrip("/") for p in DEFAULT_PATHS]`. */
  function SeedUrls(base: string): (r: seq<string>)
    ensures |r| == |DefaultPaths|
  {
    seq(|DefaultPaths|, k requires 0 <= k < |DefaultPaths| => RStrip(base + "/" + DefaultPaths[k], '/'))
  }

  /**
   * The initial worklist, `[...][:max_pages]`: a prefix of the seeds, of
   * length `max_pages` capped at seven; a negative `max_pages` drops that
   * many seeds from the end, as Python slicing does.
   */
  function InitialPages(base: string, maxPages: int): (r: seq<string>)
    ensures |r| <= |DefaultPaths| && r == SeedUrls(base)[..|r|]
    ensures maxPages >= 0 ==> |r| == if maxPages < |DefaultPaths| then maxPages else |DefaultPaths|
    ensures maxPages < 0 ==> |r| == if -maxPages < |DefaultPaths| then |DefaultPaths| + maxPages else 0
    ensures maxPages >= 0 ==> |r| <= maxPages
  {
    TakePrefix(SeedUrls(base), maxPages)
  }

  function Start(cfg: CrawlConfig): CrawlState {
    CrawlState(InitialPages(cfg.base, cfg.maxPages), 0, {}, {}, [], [])
  }

  /** An empty page holds no address. */
  lemma ExtractEmpty()
    ensures ExtractEmails("") == {}
  {
    assert FindAll("", 0) == [];
  }

  /** The addresses on the page at `url`: those extracted from its text, if the fetch returned any. */
  function PageEmails(fetch: string -> Option<string>, url: string): (r: set<string>)
    ensures fetch(url).None? || fetch(url).value == "" ==> r == {}
    ensures fetch(url).Some? ==> r == ExtractEmails(fetch(url).value)
  {
    ExtractEmpty();
    match fetch(url)
    case Some(text) => ExtractEmails(text)
    case None => {}
  }

  /** The union of `f(x)` over the elements `x` of `xs`. */
  function UnionOf<T>(f: T -> set<string>, xs: seq<T>): set<string>
    decreases |xs|
  {
    if xs == [] then {} else UnionOf(f, xs[..|xs| - 1]) + f(xs[|xs| - 1])
  }

  lemma {:induction false} UnionOfMembers<T>(f: T -> set<string>, xs: seq<T>, e: string)
    ensures e in UnionOf(f, xs) <==> exists k :: 0 <= k < |xs| && e in f(xs[k])
    decreases |xs|
  {
    if xs != [] {
      var prefix := xs[..|xs| - 1];
      UnionOfMembers(f, prefix, e);
      assert forall k :: 0 <= k < |prefix| ==> prefix[k] == xs[k];
    }
  }

  /** Everything scraped from a sequence of fetched URLs, page by page. */
  function Scraped(fetch: string -> Option<string>, urls: seq<string>): set<string> {
    UnionOf(u => PageEmails(fetch, u), urls)
  }

  /** An address is scraped from a sequence of URLs iff the page of one of them holds it. */
  lemma ScrapedMembers(fetch: string -> Option<string>, urls: seq<string>, e: string)
    ensures e in Scraped(fetch, urls) <==> exists k :: 0 <= k < |urls| && e in PageEmails(fetch, urls[k])
  {
    UnionOfMembers(u => PageEmails(fetch, u), urls, e);
  }

  lemma ScrapedSnoc(fetch: string -> Option<string>, urls: seq<string>, url: string)
    ensures Scraped(fetch, urls + [url]) == Scraped(fetch, urls) + PageEmails(fetch, url)
  {
    assert (urls + [url])[..|urls|] == urls;
  }

  /**
   * Visit a new, non-binary URL: mark it visited and fetch it; when a
   * non-empty page comes back, add its addresses and, while fewer than
   * `max_pages` URLs are visited, append its new links.
   */
  function Visit(cfg: CrawlConfig, st: CrawlState, url: string): (r: CrawlState)
    requires url !in st.visited
    ensures r.next == st.next
    ensures r.visited == st.visited + {url} && r.fetched == st.fetched + [url]
    ensures r.found == st.found + PageEmails(cfg.fetch, url)
    ensures r.linkPages == if cfg.fetch(url).Some? && cfg.fetch(url).value != "" && |st.visited| + 1 < cfg.maxPages
                           then st.linkPages + [url]
                           else st.linkPages
    ensures r.pages == if cfg.fetch(url).Some? && cfg.fetch(url).value != "" && |st.visited| + 1 < cfg.maxPages
                       then st.pages + NewLinks(cfg.base, cfg.hrefsOf(cfg.fetch(url).value), st.visited + {url})
                       else st.pages
    ensures |st.pages| <= |r.pages| && r.pages[..|st.pages|] == st.pages
    ensures r.pages != st.pages ==> |r.visited| < cfg.maxPages
    ensures Budget(r.visited, cfg.maxPages) <= Budget(st.visited, cfg.maxPages)
    ensures r.pages == st.pages || Budget(r.visited, cfg.maxPages) < Budget(st.visited, cfg.maxPages)
  {
    var visited := st.visited + {url};
    assert |visited| == |st.visited| + 1;
    var fetched := st.fetched + [url];
    var page := cfg.fetch(url);
    if page.None? || page.value == "" then
      st.(visited := visited, fetched := fetched)
    else
      var found := st.found + ExtractEmails(page.value);
      if |visited| < cfg.maxPages then
        var links := NewLinks(cfg.base, cfg.hrefsOf(page.value), visited);
        assert (st.pages + links)[..|st.pages|] == st.pages;
        CrawlState(st.pages + links, st.next, visited, found, fetched, st.linkPages + [url])
      else
        st.(visited := visited, found := found, fetched := fetched)
  }

  /** One iteration of the `for url in pages_to_visit` loop. */
  function Step(cfg: CrawlConfig, st: CrawlState): (r: CrawlState)
    requires st.next < |st.pages|
    ensures r.next == st.next + 1
    ensures |st.pages| <= |r.pages| && r.pages[..|st.pages|] == st.pages
    ensures st.visited <= r.visited
    ensures Budget(r.visited, cfg.maxPages) <= Budget(st.visited, cfg.maxPages)
    ensures r.pages == st.pages || Budget(r.visited, cfg.maxPages) < Budget(st.visited, cfg.maxPages)
  {
    var url := st.pages[st.next];
    if url in st.visited || HasBinaryExt(url) then st.(next := st.next + 1)
    else Visit(cfg, st, url).(next := st.next + 1)
  }

  /** The whole loop: step until the worklist is exhausted. */
  function Run(cfg: CrawlConfig, st: CrawlState): (r: CrawlState)
    requires st.next <= |st.pages|
    ensures r.next == |r.pages|
    decreases Budget(st.visited, cfg.maxPages), |st.pages| - st.next
  {
    if st.next == |st.pages| then st else Run(cfg, Step(cfg, st))
  }

  /** The initial worklist is never changed, and nothing appended to it is binary. */
  ghost predicate PagesInv(init: seq<string>, st: CrawlState) {
    && st.next <= |st.pages|
    && |init| <= |st.pages| && st.pages[..|init|] == init
    && (forall k :: |init| <= k < |st.pages| ==> !HasBinaryExt(st.pages[k]))
  }

  /**
   * No URL is fetched twice and `visited` is exactly the set of fetched URLs
   * (failed fetches included); nothing fetched is binary, everything fetched
   * came from the worklist, and every entry already passed over was visited
   * or is binary.
   */
  ghost predicate FetchInv(st: CrawlState) {
    && st.next <= |st.pages|
    && NoDup(st.fetched)
    && (forall u :: u in st.visited <==> u in st.fetched)
    && |st.visited| == |st.fetched|
    && (forall k :: 0 <= k < |st.fetched| ==> !HasBinaryExt(st.fetched[k]) && st.fetched[k] in st.pages[..st.next])
    && (forall k :: 0 <= k < st.next ==> st.pages[k] in st.visited || HasBinaryExt(st.pages[k]))
  }

  /** The found addresses are lower-case, blacklist-free matches of the address pattern. */
  ghost predicate FoundInv(st: CrawlState) {
    forall e | e in st.found :: IsLower(e) && EmailOk(e) && IsAddress(e)
  }

  /** Links were collected from visited pages only, and from fewer than `max_pages` of them. */
  ghost predicate LinkInv(cfg: CrawlConfig, st: CrawlState) {
    && |st.linkPages| <= |st.visited|
    && (st.linkPages != [] ==> |st.linkPages| < cfg.maxPages)
    && (forall k :: 0 <= k < |st.linkPages| ==> st.linkPages[k] in st.visited)
  }

  /** The found addresses are exactly those extracted from the pages fetched so far. */
  ghost predicate ScrapeInv(cfg: CrawlConfig, st: CrawlState) {
    st.found == Scraped(cfg.fetch, st.fetched)
  }

  /** What holds of the crawl's variables throughout. */
  ghost predicate CrawlInv(cfg: CrawlConfig, init: seq<string>, st: CrawlState) {
    PagesInv(init, st) && FetchInv(st) && FoundInv(st) && ScrapeInv(cfg, st) && LinkInv(cfg, st)
  }

  lemma StartInv(cfg: CrawlConfig)
    ensures CrawlInv(cfg, InitialPages(cfg.base, cfg.maxPages), Start(cfg))
  {
  }

  lemma StepPagesInv(cfg: CrawlConfig, init: seq<string>, st: CrawlState)
    requires PagesInv(init, st) && st.next < |st.pages|
    ensures PagesInv(init, Step(cfg, st))
  {
    var r := Step(cfg, st);
    assert r.pages[..|init|] == init by {
      assert r.pages[..|st.pages|][..|init|] == r.pages[..|init|];
    }
    if r.pages != st.pages {
      var url := st.pages[st.next];
      var page := cfg.fetch(url);
      assert !(url in st.visited || HasBinaryExt(url)) && page.Some? && page.value != "";
      var links := NewLinks(cfg.base, cfg.hrefsOf(page.value), st.visited + {url});
      assert r.pages == st.pages + links;
      forall k | |init| <= k < |r.pages|
        ensures !HasBinaryExt(r.pages[k])
      {
        if k >= |st.pages| {
          assert r.pages[k] == links[k - |st.pages|];
        }
      }
    }
  }

  /** The `fetched` entries are all in the worklist before `next`, and so stay there as it grows. */
  lemma FetchedInPrefix(st: CrawlState, r: CrawlState)
    requires FetchInv(st) && st.next < |st.pages|
    requires r.next == st.next + 1 && |st.pages| <= |r.pages| && r.pages[..|st.pages|] == st.pages
    ensures r.pages[..r.next] == st.pages[..st.next] + [st.pages[st.next]]
    ensures forall k :: 0 <= k < |st.fetched| ==> st.fetched[k] in r.pages[..r.next]
  {
    assert r.pages[..r.next] == r.pages[..|st.pages|][..r.next];
  }

  /** Passing over a visited or binary entry keeps `FetchInv`. */
  lemma SkipKeepsFetchInv(st: CrawlState, r: CrawlState)
    requires FetchInv(st) && st.next < |st.pages|
    requires st.pages[st.next] in st.visited || HasBinaryExt(st.pages[st.next])
    requires r.next == st.next + 1 && |st.pages| <= |r.pages| && r.pages[..|st.pages|] == st.pages
    requires r.visited == st.visited && r.fetched == st.fetched
    ensures FetchInv(r)
  {
    FetchedInPrefix(st, r);
    forall k | 0 <= k < r.next
      ensures r.pages[k] in r.visited || HasBinaryExt(r.pages[k])
    {
      assert r.pages[k] == r.pages[..|st.pages|][k] == st.pages[k];
    }
  }

  /** Fetching a new, non-binary entry keeps `FetchInv`. */
  lemma VisitKeepsFetchInv(st: CrawlState, r: CrawlState)
    requires FetchInv(st) && st.next < |st.pages|
    requires st.pages[st.next] !in st.visited && !HasBinaryExt(st.pages[st.next])
    requires r.next == st.next + 1 && |st.pages| <= |r.pages| && r.pages[..|st.pages|] == st.pages
    requires r.visited == st.visited + {st.pages[st.next]} && r.fetched == st.fetched + [st.pages[st.next]]
    ensures FetchInv(r)
  {
    var url := st.pages[st.next];
    assert NoDup(r.fetched) by {
      assert url !in st.fetched;
      NoDupSnoc(st.fetched, url);
    }
    assert |r.visited| == |r.fetched| by {
      assert url !in st.visited;
    }
    assert forall k :: 0 <= k < |r.fetched| ==> !HasBinaryExt(r.fetched[k]) && r.fetched[k] in r.pages[..r.next] by {
      FetchedInPrefix(st, r);
      forall k | 0 <= k < |r.fetched|
        ensures !HasBinaryExt(r.fetched[k]) && r.fetched[k] in r.pages[..r.next]
      {
        if k < |st.fetched| {
          assert r.fetched[k] == st.fetched[k];
        } else {
          assert r.fetched[k] == url == r.pages[..r.next][st.next];
        }
      }
    }
    assert forall k :: 0 <= k < r.next ==> r.pages[k] in r.visited || HasBinaryExt(r.pages[k]) by {
      forall k | 0 <= k < r.next
        ensures r.pages[k] in r.visited || HasBinaryExt(r.pages[k])
      {
        assert r.pages[k] == r.pages[..|st.pages|][k] == st.pages[k];
      }
    }
  }

  lemma StepFetchInv(cfg: CrawlConfig, st: CrawlState)
    requires FetchInv(st) && st.next < |st.pages|
    ensures FetchInv(Step(cfg, st))
  {
    var url := st.pages[st.next];
    if url in st.visited || HasBinaryExt(url) {
      SkipKeepsFetchInv(st, Step(cfg, st));
    } else {
      VisitKeepsFetchInv(st, Step(cfg, st));
    }
  }

  lemma StepFoundInv(cfg: CrawlConfig, st: CrawlState)
    requires FoundInv(st) && st.next < |st.pages|
    ensures FoundInv(Step(cfg, st))
  {
  }

  lemma StepScrapeInv(cfg: CrawlConfig, st: CrawlState)
    requires ScrapeInv(cfg, st) && st.next < |st.pages|
    ensures ScrapeInv(cfg, Step(cfg, st))
  {
    var url := st.pages[st.next];
    if !(url in st.visited || HasBinaryExt(url)) {
      ScrapedSnoc(cfg.fetch, st.fetched, url);
    }
  }

  lemma StepLinkInv(cfg: CrawlConfig, st: CrawlState)
    requires LinkInv(cfg, st) && FetchInv(st) && st.next < |st.pages|
    ensures LinkInv(cfg, Step(cfg, st))
  {
    var r := Step(cfg, st);
    if r.linkPages != st.linkPages {
      var url := st.pages[st.next];
      assert url !in st.visited;
      assert r.visited == st.visited + {url};
      assert |r.visited| == |st.visited| + 1;
    }
  }

  lemma StepInv(cfg: CrawlConfig, init: seq<string>, st: CrawlState)
    requires CrawlInv(cfg, init, st) && st.next < |st.pages|
    ensures CrawlInv(cfg, init, Step(cfg, st))
  {
    StepPagesInv(cfg, init, st);
    StepFetchInv(cfg, st);
    StepFoundInv(cfg, st);
    StepScrapeInv(cfg, st);
    StepLinkInv(cfg, st);
  }

  lemma {:induction false} RunInv(cfg: CrawlConfig, init: seq<string>, st: CrawlState)
    requires CrawlInv(cfg, init, st)
    ensures CrawlInv(cfg, init, Run(cfg, st))
    decreases Budget(st.visited, cfg.maxPages), |st.pages| - st.next
  {
    if st.next < |st.pages| {
      StepInv(cfg, init, st);
      RunInv(cfg, init, Step(cfg, st));
    }
  }

  /**
   * What the finished crawl guarantees: no URL was fetched twice, `visited`
   * is the set of fetched URLs, no binary URL was fetched or appended, every
   * non-binary worklist entry was visited, the found addresses are
   * lower-case blacklist-free matches, they are exactly the addresses
   * extracted from the fetched pages, and fewer than `max_pages` pages
   * contributed links.
   */
  lemma CrawlFacts(cfg: CrawlConfig)
    ensures var init, fin := InitialPages(cfg.base, cfg.maxPages), Run(cfg, Start(cfg));
      && NoDup(fin.fetched)
      && (forall u :: u in fin.visited <==> u in fin.fetched)
      && (forall k :: 0 <= k < |fin.fetched| ==> !HasBinaryExt(fin.fetched[k]))
      && |init| <= |fin.pages| && fin.pages[..|init|] == init
      && (forall k :: |init| <= k < |fin.pages| ==> !HasBinaryExt(fin.pages[k]))
      && (forall k :: 0 <= k < |fin.pages| ==> fin.pages[k] in fin.visited || HasBinaryExt(fin.pages[k]))
      && (forall e | e in fin.found :: IsLower(e) && EmailOk(e) && IsAddress(e))
      && fin.found == Scraped(cfg.fetch, fin.fetched)
      && (fin.linkPages != [] ==> |fin.linkPages| < cfg.maxPages)
  {
    StartInv(cfg);
    RunInv(cfg, InitialPages(cfg.base, cfg.maxPages), Start(cfg));
  }

  /** An address is scraped by the crawl iff one of the pages it fetched holds it. */
  lemma CrawlScrapes(cfg: CrawlConfig, e: string)
    ensures var fin := Run(cfg, Start(cfg));
      e in fin.found <==> exists k :: 0 <= k < |fin.fetched| && e in PageEmails(cfg.fetch, fin.fetched[k])
  {
    CrawlFacts(cfg);
    ScrapedMembers(cfg.fetch, Run(cfg, Start(cfg)).fetched, e);
  }

  /** The `for a in soup.find_all("a", href=True)` loop: append each new link. */
  method AppendLinks(base: string, hrefs: seq<string>, visited: set<string>, pages0: seq<string>)
    returns (pages: seq<string>)
    ensures pages == pages0 + NewLinks(base, hrefs, visited)
  {
    pages := pages0;
    for j := 0 to |hrefs|
      invariant pages == pages0 + NewLinks(base, hrefs[..j], visited)
    {
      assert hrefs[..j + 1][..j] == hrefs[..j];
      var href := hrefs[j];
      if HasLinkKeyword(href) {
        var nextUrl := Absolute(base, href);
        if nextUrl.Some? && nextUrl.value != "" && nextUrl.value !in visited && !HasBinaryExt(nextUrl.value) {
          pages := pages + [nextUrl.value];
        }
      }
    }
    assert hrefs[..|hrefs|] == hrefs;
  }

  /** The body of the page loop for a new, non-binary URL. */
  method VisitPage(base: string, maxPages: int, fetch: string -> Option<string>, hrefsOf: string -> seq<string>,
                   url: string, pages0: seq<string>, ghost next: nat,
                   visited0: set<string>, found0: set<string>, fetched0: seq<string>, ghost linkPages0: seq<string>)
    returns (pages: seq<string>, visited: set<string>, found: set<string>, fetched: seq<string>, ghost linkPages: seq<string>)
    requires url !in visited0
    ensures CrawlState(pages, next, visited, found, fetched, linkPages)
         == Visit(CrawlConfig(base, maxPages, fetch, hrefsOf), CrawlState(pages0, next, visited0, found0, fetched0, linkPages0), url)
  {
    pages, visited, found, fetched, linkPages := pages0, visited0 + {url}, found0, fetched0 + [url], linkPages0;
    var htmlText := fetch(url);
    if htmlText.Some? && htmlText.value != "" {
      found := found + ExtractEmails(htmlText.value);
      if |visited| < maxPages {
        pages := AppendLinks(base, hrefsOf(htmlText.value), visited, pages);
        linkPages := linkPages + [url];
      }
    }
  }

  /** The page-scraping loop of `discover_emails`. */
  method Crawl(base: string, maxPages: int, fetch: string -> Option<string>, hrefsOf: string -> seq<string>)
    returns (found: set<string>, visited: set<string>, fetched: seq<string>)
    ensures var fin := Run(CrawlConfig(base, maxPages, fetch, hrefsOf), Start(CrawlConfig(base, maxPages, fetch, hrefsOf)));
      found == fin.found && visited == fin.visited && fetched == fin.fetched
    ensures NoDup(fetched) && forall u :: u in visited <==> u in fetched
    ensures forall k :: 0 <= k < |fetched| ==> !HasBinaryExt(fetched[k])
    ensures forall e | e in found :: IsLower(e) && EmailOk(e) && IsAddress(e)
    ensures found == Scraped(fetch, fetched)
  {
    ghost var cfg := CrawlConfig(base, maxPages, fetch, hrefsOf);
    CrawlFacts(cfg);
    var pagesToVisit := InitialPages(base, maxPages);
    visited, found, fetched := {}, {}, [];
    ghost var linkPages: seq<string> := [];
    var i := 0;
    while i < |pagesToVisit|
      invariant i <= |pagesToVisit|
      invariant Run(cfg, CrawlState(pagesToVisit, i, visited, found, fetched, linkPages)) == Run(cfg, Start(cfg))
      decreases Budget(visited, maxPages), |pagesToVisit| - i
    {
      ghost var st := CrawlState(pagesToVisit, i, visited, found, fetched, linkPages);
      var url := pagesToVisit[i];
      if url !in visited && !HasBinaryExt(url) {
        pagesToVisit, visited, found, fetched, linkPages :=
          VisitPage(base, maxPages, fetch, hrefsOf, url, pagesToVisit, i, visited, found, fetched, linkPages);
      }
      i := i + 1;
      assert CrawlState(pagesToVisit, i, visited, found, fetched, linkPages) == Step(cfg, st);
    }
  }

  /**
   * Every binary extension ends in 'f', 'g', 'p', 'c' or 'x', except "ppt";
   * so a URL ending in 'm', or in 't' after anything but 'p', is not binary.
   */
  lemma NotBinaryByLastChars(url: string)
    requires |url| >= 2 && LowerChar(url[|url| - 2]) != 'p'
    requires url[|url| - 1] == 't' || url[|url| - 1] == 'm'
    ensures !HasBinaryExt(url)
  {
    var lu := Lower(url);
    assert lu[|lu| - 1] == url[|url| - 1] && lu[|lu| - 2] != 'p';
    forall k | 0 <= k < |BinaryExtensions|
      ensures !EndsWith(lu, "." + BinaryExtensions[k])
    {
      assert k == 0 || k == 1 || k == 2 || k == 3 || k == 4 || k == 5 || k == 6 || k == 7 || k == 8 || k == 9;
    }
  }

  /** A link whose path names a keyword page is followed as `base + path`. */
  lemma FollowsKeywordPath(base: string, path: string, visited: set<string>)
    requires path == "/about" || path == "/team"
    requires base + path !in visited
    ensures LinkFrom(base, path, visited) == Some(base + path)
  {
    NotBinaryByLastChars(base + path);
    assert Contains(Lower(path), path[1..]) by {
      assert Lower(path) == path;
      ContainsInSuffix(path, 1, path[1..]);
      assert StartsWith(path[1..], path[1..]);
    }
    assert !HasHttpScheme(path) && StartsWith(path, "/");
  }

  /** A visit once `max_pages` URLs are visited fetches the page and appends nothing. */
  lemma StepWithoutLinks(cfg: CrawlConfig, st: CrawlState)
    requires st.next < |st.pages|
    requires st.pages[st.next] !in st.visited && !HasBinaryExt(st.pages[st.next])
    requires |st.visited| + 1 >= cfg.maxPages
    ensures var r, url := Step(cfg, st), st.pages[st.next];
      r.pages == st.pages && r.visited == st.visited + {url} && r.fetched == st.fetched + [url]
  {
  }

  /** A visit that fetches a non-empty page while the budget lasts appends the page's new links. */
  lemma StepWithLinks(cfg: CrawlConfig, st: CrawlState, page: string)
    requires st.next < |st.pages|
    requires st.pages[st.next] !in st.visited && !HasBinaryExt(st.pages[st.next])
    requires cfg.fetch(st.pages[st.next]) == Some(page) && page != ""
    requires |st.visited| + 1 < cfg.maxPages
    ensures var r, url := Step(cfg, st), st.pages[st.next];
      && r.pages == st.pages + NewLinks(cfg.base, cfg.hrefsOf(page), st.visited + {url})
      && r.visited == st.visited + {url} && r.fetched == st.fetched + [url]
  {
  }

  /**
   * Once `max_pages` URLs are visited (or all but one), the crawl fetches
   * every remaining worklist entry, in order, when they are distinct, new
   * and not binary: the budget no longer stops anything.
   */
  lemma {:induction false} DrainWithoutLinks(cfg: CrawlConfig, st: CrawlState)
    requires st.next <= |st.pages|
    requires |st.visited| + 1 >= cfg.maxPages
    requires NoDup(st.pages[st.next..])
    requires forall u | u in st.pages[st.next..] :: u !in st.visited && !HasBinaryExt(u)
    ensures Run(cfg, st).fetched == st.fetched + st.pages[st.next..]
    decreases |st.pages| - st.next
  {
    if st.next < |st.pages| {
      var rest := st.pages[st.next..];
      var url := rest[0];
      StepWithoutLinks(cfg, st);
      var r := Step(cfg, st);
      assert r.pages == st.pages && r.next == st.next + 1;
      assert r.visited == st.visited + {url} && r.fetched == st.fetched + [url];
      assert r.pages[r.next..] == rest[1..];
      DropFirstFresh(rest, st.visited);
      DrainWithoutLinks(cfg, r);
      assert rest == [url] + rest[1..];
      ConcatAssoc(st.fetched, [url], rest[1..]);
    }
  }

  /** Once the first of distinct fresh entries is visited, the others are still distinct and fresh. */
  lemma DropFirstFresh(rest: seq<string>, visited: set<string>)
    requires rest != [] && NoDup(rest)
    requires forall u | u in rest :: u !in visited && !HasBinaryExt(u)
    ensures NoDup(rest[1..])
    ensures forall u | u in rest[1..] :: u !in visited + {rest[0]} && !HasBinaryExt(u)
  {
    var tail := rest[1..];
    assert forall k :: 0 <= k < |tail| ==> tail[k] == rest[k + 1];
    forall u | u in tail
      ensures u !in visited + {rest[0]} && !HasBinaryExt(u)
    {
      var k :| 0 <= k < |tail| && tail[k] == u;
      assert u == rest[k + 1] && u in rest;
      assert rest[0] != rest[k + 1];
    }
  }

  lemma FirstPageLinks(b: string)
    ensures NewLinks(b, ["/about", "/team"], {b}) == [b + "/about", b + "/team"]
  {
    assert |b + "/about"| != |b| && |b + "/team"| != |b|;
    FollowsKeywordPath(b, "/about", {b});
    FollowsKeywordPath(b, "/team", {b});
    assert ["/about", "/team"][..1] == ["/about"];
    assert NewLinks(b, ["/about"], {b}) == [b + "/about"];
  }

  /**
   * `max_pages` caps only the pages whose links are collected, not the pages
   * fetched: with `max_pages == 2`, a base URL that is no binary file, and a
   * site whose every page links to "/about" and "/team", the crawl fetches
   * four URLs -- the two seeds the slice keeps and both links found on the
   * first page.
   */
  lemma CrawlFetchesPastBudget(cfg: CrawlConfig, page: string)
    requires cfg.maxPages == 2
    requires cfg.base != [] && cfg.base[|cfg.base| - 1] != '/' && !HasBinaryExt(cfg.base)
    requires page != "" && forall u :: cfg.fetch(u) == Some(page)
    requires cfg.hrefsOf(page) == ["/about", "/team"]
    ensures var b := cfg.base;
      Run(cfg, Start(cfg)).fetched == [b, b + "/contact", b + "/about", b + "/team"]
    ensures |Run(cfg, Start(cfg)).fetched| > cfg.maxPages
  {
    var b := cfg.base;
    var bc, ba, bt := b + "/contact", b + "/about", b + "/team";
    var rest := [bc, ba, bt];
    assert NoDup(rest) && forall u | u in rest :: u != b && !HasBinaryExt(u) by {
      NotBinaryByLastChars(bc);
      NotBinaryByLastChars(ba);
      NotBinaryByLastChars(bt);
      assert |b| < |bt| < |ba| < |bc|;
    }
    FirstStep(cfg, page);
    var st1 := Step(cfg, Start(cfg));
    assert st1.next == 1 && st1.pages[1..] == rest;
    assert |st1.visited| == 1;
    DrainWithoutLinks(cfg, st1);
    assert Run(cfg, Start(cfg)) == Run(cfg, st1);
    ConsOfThree(b, bc, ba, bt);
  }

  lemma ConsOfThree<T>(a: T, x: T, y: T, z: T)
    ensures [a] + [x, y, z] == [a, x, y, z]
  {
  }

  lemma PairOfPairs<T>(a: T, x: T, y: T, z: T)
    ensures [a, x] + [y, z] == [a, x, y, z]
  {
  }

  /** The two seeds `[:2]` keeps: the base itself and its "/contact" page. */
  lemma TwoSeeds(b: string)
    requires b != [] && b[|b| - 1] != '/'
    ensures InitialPages(b, 2) == [b, b + "/contact"]
  {
    assert RStrip(b + "/" + DefaultPaths[0], '/') == b by {
      assert b + "/" + DefaultPaths[0] == b + "/";
      assert (b + "/")[..|b|] == b;
    }
    assert b + "/" + DefaultPaths[1] == b + "/contact";
  }

  /** The first visit of the example crawl fetches the base and appends both links. */
  lemma FirstStep(cfg: CrawlConfig, page: string)
    requires cfg.maxPages == 2
    requires cfg.base != [] && cfg.base[|cfg.base| - 1] != '/' && !HasBinaryExt(cfg.base)
    requires page != "" && forall u :: cfg.fetch(u) == Some(page)
    requires cfg.hrefsOf(page) == ["/about", "/team"]
    ensures var b, st1 := cfg.base, Step(cfg, Start(cfg));
      && st1.next == 1 && st1.visited == {b} && st1.fetched == [b]
      && st1.pages == [b, b + "/contact", b + "/about", b + "/team"]
  {
    var b := cfg.base;
    TwoSeeds(b);
    FirstPageLinks(b);
    StepWithLinks(cfg, Start(cfg), page);
    PairOfPairs(b, b + "/contact", b + "/about", b + "/team");
  }

  /** The same, for the base "https://acme.test". */
  lemma AcmeFetchesFour(cfg: CrawlConfig, page: string)
    requires cfg.base == "https://acme.test" && cfg.maxPages == 2
    requires page != "" && forall u :: cfg.fetch(u) == Some(page)
    requires cfg.hrefsOf(page) == ["/about", "/team"]
    ensures |Run(cfg, Start(cfg)).fetched| == 4
  {
    NotBinaryByLastChars(cfg.base);
    CrawlFetchesPastBudget(cfg, page);
  }

  // ---------------------------------------------------------------------------
  // Pattern guessing, and discover_emails itself
  // ---------------------------------------------------------------------------

  lemma AlphaIsStripped(s: string)
    requires IsAlpha(s)
    ensures Strip(s) == s
  {
    assert !IsSpace(s[0]) && !IsSpace(s[|s| - 1]);
    assert IsStripped(s);
  }

  /** `generate_email_formats(first, last, domain)` for a pair `_tokenise_names` produced. */
  function PairGuesses(first: string, last: string, domain: string): (r: seq<string>)
    requires IsAlpha(first) && IsAlpha(last)
    ensures |r| == 8
    ensures forall k :: 0 <= k < 8 ==> IsLower(r[k]) && EndsWith(r[k], "@" + Lower(domain))
  {
    AlphaIsStripped(first);
    AlphaIsStripped(last);
    Utils.EmailFormatsShape(first, last, domain, []);
    Utils.DefaultEmailFormatsOnDomain(first, last, domain);
    Utils.EmailFormats(first, last, domain, []).value
  }

  /** The guesses of one list that are kept: all of them, or, with `verify`, those the verifier accepts. */
  function Accepted(guesses: seq<string>, domain: string, verify: bool, verifyEmail: (string, string) -> bool): (r: set<string>)
    ensures forall g :: g in r <==> exists k :: 0 <= k < |guesses| && g == Lower(guesses[k]) && (!verify || verifyEmail(g, domain))
    decreases |guesses|
  {
    if guesses == [] then {}
    else
      var prev := Accepted(guesses[..|guesses| - 1], domain, verify, verifyEmail);
      var g := Lower(guesses[|guesses| - 1]);
      assert forall k :: 0 <= k < |guesses| - 1 ==> guesses[..|guesses| - 1][k] == guesses[k];
      if !verify || verifyEmail(g, domain) then prev + {g} else prev
  }

  /** Accepted guesses keep the case and suffix the generated ones share. */
  lemma AcceptedKeeps(guesses: seq<string>, suffix: string, domain: string, verify: bool, verifyEmail: (string, string) -> bool)
    requires forall k :: 0 <= k < |guesses| ==> IsLower(guesses[k]) && EndsWith(guesses[k], suffix)
    ensures forall g | g in Accepted(guesses, domain, verify, verifyEmail) ::
      IsLower(g) && EndsWith(g, suffix) && (verify ==> verifyEmail(g, domain))
  {
    forall g | g in Accepted(guesses, domain, verify, verifyEmail)
      ensures IsLower(g) && EndsWith(g, suffix) && (verify ==> verifyEmail(g, domain))
    {
      var k :| 0 <= k < |guesses| && g == Lower(guesses[k]) && (!verify || verifyEmail(g, domain));
      assert g == guesses[k];
    }
  }

  /** Everything the guessing loop adds, over all name pairs. */
  function Guessed(pairs: seq<(string, string)>, domain: string, verify: bool, verifyEmail: (string, string) -> bool): (r: set<string>)
    requires forall k :: 0 <= k < |pairs| ==> IsAlpha(pairs[k].0) && IsAlpha(pairs[k].1)
    ensures forall g | g in r :: IsLower(g) && EndsWith(g, "@" + Lower(domain)) && (verify ==> verifyEmail(g, domain))
    ensures forall k, i ::
              0 <= k < |pairs| && 0 <= i < 8 && (!verify || verifyEmail(PairGuesses(pairs[k].0, pairs[k].1, domain)[i], domain))
              ==> PairGuesses(pairs[k].0, pairs[k].1, domain)[i] in r
    decreases |pairs|
  {
    if pairs == [] then {}
    else
      var prev := Guessed(pairs[..|pairs| - 1], domain, verify, verifyEmail);
      var p := pairs[|pairs| - 1];
      var gs := PairGuesses(p.0, p.1, domain);
      assert forall k :: 0 <= k < |pairs| - 1 ==> pairs[..|pairs| - 1][k] == pairs[k];
      assert forall i :: 0 <= i < 8 ==> gs[i] == Lower(gs[i]);
      AcceptedKeeps(gs, "@" + Lower(domain), domain, verify, verifyEmail);
      prev + Accepted(gs, domain, verify, verifyEmail)
  }

  /** Verification only ever removes guesses. */
  lemma {:induction false} VerifyOnlyRemoves(pairs: seq<(string, string)>, domain: string, verifyEmail: (string, string) -> bool)
    requires forall k :: 0 <= k < |pairs| ==> IsAlpha(pairs[k].0) && IsAlpha(pairs[k].1)
    ensures Guessed(pairs, domain, true, verifyEmail) <= Guessed(pairs, domain, false, verifyEmail)
    decreases |pairs|
  {
    if pairs != [] {
      var p := pairs[|pairs| - 1];
      var gs := PairGuesses(p.0, p.1, domain);
      VerifyOnlyRemoves(pairs[..|pairs| - 1], domain, verifyEmail);
      assert Accepted(gs, domain, true, verifyEmail) <= Accepted(gs, domain, false, verifyEmail);
    }
  }

  /** `e` is one of the eight patterns of one of the pairs. */
  ghost predicate IsPatternGuess(e: string, pairs: seq<(string, string)>, domain: string)
    requires forall k :: 0 <= k < |pairs| ==> IsAlpha(pairs[k].0) && IsAlpha(pairs[k].1)
  {
    exists k, i :: 0 <= k < |pairs| && 0 <= i < 8 && e == PairGuesses(pairs[k].0, pairs[k].1, domain)[i]
  }

  /** Every kept guess is one of the eight patterns of some pair. */
  lemma {:induction false} GuessedFromPatterns(pairs: seq<(string, string)>, domain: string, verify: bool,
                                                verifyEmail: (string, string) -> bool, g: string)
    requires forall k :: 0 <= k < |pairs| ==> IsAlpha(pairs[k].0) && IsAlpha(pairs[k].1)
    requires g in Guessed(pairs, domain, verify, verifyEmail)
    ensures IsPatternGuess(g, pairs, domain)
    decreases |pairs|
  {
    var p := pairs[|pairs| - 1];
    var gs := PairGuesses(p.0, p.1, domain);
    var prefix := pairs[..|pairs| - 1];
    if g in Guessed(prefix, domain, verify, verifyEmail) {
      GuessedFromPatterns(prefix, domain, verify, verifyEmail, g);
      var k, i :| 0 <= k < |prefix| && 0 <= i < 8 && g == PairGuesses(prefix[k].0, prefix[k].1, domain)[i];
      assert prefix[k] == pairs[k];
    } else {
      var i :| 0 <= i < |gs| && g == Lower(gs[i]) && (!verify || verifyEmail(g, domain));
      assert g == PairGuesses(pairs[|pairs| - 1].0, pairs[|pairs| - 1].1, domain)[i];
    }
  }

  /** The `for guess in generate_email_formats(...)` loop for one pair. */
  method AddAccepted(found0: set<string>, guesses: seq<string>, domain: string, verify: bool,
                     verifyEmail: (string, string) -> bool)
    returns (found: set<string>)
    ensures found == found0 + Accepted(guesses, domain, verify, verifyEmail)
  {
    found := found0;
    for j := 0 to |guesses|
      invariant found == found0 + Accepted(guesses[..j], domain, verify, verifyEmail)
    {
      assert guesses[..j + 1][..j] == guesses[..j];
      var guess := Lower(guesses[j]);
      if guess in found {
        continue;
      }
      if verify && !verifyEmail(guess, domain) {
        continue;
      }
      found := found + {guess};
    }
    assert guesses[..|guesses|] == guesses;
  }

  /** The `for first, last in first_last_pairs` loop. */
  method GuessAddresses(found0: set<string>, pairs: seq<(string, string)>, domain: string, verify: bool,
                        verifyEmail: (string, string) -> bool)
    returns (found: set<string>)
    requires forall k :: 0 <= k < |pairs| ==> IsAlpha(pairs[k].0) && IsAlpha(pairs[k].1)
    ensures found == found0 + Guessed(pairs, domain, verify, verifyEmail)
  {
    found := found0;
    for i := 0 to |pairs|
      invariant found == found0 + Guessed(pairs[..i], domain, verify, verifyEmail)
    {
      assert pairs[..i + 1][..i] == pairs[..i];
      var first, last := pairs[i].0, pairs[i].1;
      AlphaIsStripped(first);
      AlphaIsStripped(last);
      var formats := Utils.GenerateEmailFormats(first, last, domain, []);
      found := AddAccepted(found, formats.value, domain, verify, verifyEmail);
    }
    assert pairs[..|pairs|] == pairs;
  }

  /** `base.split("//")[-1]`: the base without its scheme. */
  function DomainOf(base: string): string {
    var parts := SplitOn(base, "//");
    parts[|parts| - 1]
  }

  function Names(candidateNames: Option<seq<string>>): seq<string> {
    if candidateNames.Some? then candidateNames.value else []
  }

  /** The set `discover_emails` sorts and returns. */
  function Discovered(domainOrUrl: Option<string>, candidateNames: Option<seq<string>>, maxPages: int, verify: bool,
                      fetch: string -> Option<string>, hrefsOf: string -> seq<string>,
                      verifyEmail: (string, string) -> bool): (r: set<string>)
    ensures NormaliseBase(domainOrUrl).None? ==> r == {}
    ensures forall e | e in r :: IsLower(e)
  {
    match NormaliseBase(domainOrUrl)
    case None => {}
    case Some(base) =>
      CrawlFacts(CrawlConfig(base, maxPages, fetch, hrefsOf));
      var scraped := Run(CrawlConfig(base, maxPages, fetch, hrefsOf), Start(CrawlConfig(base, maxPages, fetch, hrefsOf))).found;
      scraped + Guessed(NamePairs(Names(candidateNames)), DomainOf(base), verify, verifyEmail)
  }

  /**
   * `discover_emails(domain_or_url, candidate_names=..., max_pages=..., verify=...)`:
   * the sorted, duplicate-free addresses, and the URLs it requested in order.
   */
  method DiscoverEmails(domainOrUrl: Option<string>, candidateNames: Option<seq<string>>, maxPages: int, verify: bool,
                        fetch: string -> Option<string>, hrefsOf: string -> seq<string>,
                        verifyEmail: (string, string) -> bool)
    returns (emails: seq<string>, fetched: seq<string>)
    ensures forall e :: e in emails <==> e in Discovered(domainOrUrl, candidateNames, maxPages, verify, fetch, hrefsOf, verifyEmail)
    ensures StrictlySorted(emails)
    ensures NormaliseBase(domainOrUrl).None? ==> emails == [] && fetched == []
    ensures NormaliseBase(domainOrUrl).Some? ==>
      var cfg := CrawlConfig(NormaliseBase(domainOrUrl).value, maxPages, fetch, hrefsOf);
      fetched == Run(cfg, Start(cfg)).fetched
    ensures NoDup(fetched) && forall k :: 0 <= k < |fetched| ==> !HasBinaryExt(fetched[k])
  {
    var base := NormaliseBase(domainOrUrl);
    if base.None? {
      return [], [];
    }
    var found, visited;
    found, visited, fetched := Crawl(base.value, maxPages, fetch, hrefsOf);
    if candidateNames.Some? && candidateNames.value != [] {
      var domain := DomainOf(base.value);
      var pairs := TokeniseNames(candidateNames.value);
      found := GuessAddresses(found, pairs, domain, verify, verifyEmail);
    }
    emails := SortedList(found);
  }

  /** `base.split("//")[-1]` of "<scheme>//<host>" is the host. */
  lemma DomainStripsScheme(scheme: string, host: string)
    requires '/' !in scheme && !Contains(host, "//")
    ensures DomainOf(scheme + "//" + host) == host
  {
    SplitOnFirst(scheme, "//", host);
    SplitOnAbsent(host, "//");
  }

  /**
   * Every returned address was either scraped by the crawl -- then it is a
   * blacklist-free match of the address pattern -- or, not scraped, is one of
   * the eight patterns of a tokenised name on the base's domain, which the
   * verifier accepted when `verify` is set.
   */
  lemma DiscoveredSound(domainOrUrl: Option<string>, candidateNames: Option<seq<string>>, maxPages: int, verify: bool,
                        fetch: string -> Option<string>, hrefsOf: string -> seq<string>,
                        verifyEmail: (string, string) -> bool, e: string)
    requires e in Discovered(domainOrUrl, candidateNames, maxPages, verify, fetch, hrefsOf, verifyEmail)
    ensures NormaliseBase(domainOrUrl).Some?
    ensures var base := NormaliseBase(domainOrUrl).value;
      var cfg := CrawlConfig(base, maxPages, fetch, hrefsOf);
      var domain, pairs := DomainOf(base), NamePairs(Names(candidateNames));
      || (e in Run(cfg, Start(cfg)).found && EmailOk(e) && IsAddress(e))
      || (e !in Run(cfg, Start(cfg)).found && IsPatternGuess(e, pairs, domain) && (verify ==> verifyEmail(e, domain)))
  {
    var base := NormaliseBase(domainOrUrl).value;
    var cfg := CrawlConfig(base, maxPages, fetch, hrefsOf);
    var domain, pairs := DomainOf(base), NamePairs(Names(candidateNames));
    var found := Run(cfg, Start(cfg)).found;
    if e in found {
      CrawlFacts(cfg);
      assert EmailOk(e) && IsAddress(e);
    } else {
      assert e in Guessed(pairs, domain, verify, verifyEmail);
      GuessedFromPatterns(pairs, domain, verify, verifyEmail, e);
    }
  }

  /**
   * Nothing scraped is dropped, and every pattern of every tokenised name is
   * returned when `verify` is off or the verifier accepts it.
   */
  lemma DiscoveredComplete(domainOrUrl: Option<string>, candidateNames: Option<seq<string>>, maxPages: int, verify: bool,
                           fetch: string -> Option<string>, hrefsOf: string -> seq<string>,
                           verifyEmail: (string, string) -> bool)
    requires NormaliseBase(domainOrUrl).Some?
    ensures var base := NormaliseBase(domainOrUrl).value;
      var cfg, domain, pairs := CrawlConfig(base, maxPages, fetch, hrefsOf), DomainOf(base), NamePairs(Names(candidateNames));
      var r := Discovered(domainOrUrl, candidateNames, maxPages, verify, fetch, hrefsOf, verifyEmail);
      && Run(cfg, Start(cfg)).found <= r
      && (forall k, i :: 0 <= k < |pairs| && 0 <= i < 8 && (!verify || verifyEmail(PairGuesses(pairs[k].0, pairs[k].1, domain)[i], domain))
            ==> PairGuesses(pairs[k].0, pairs[k].1, domain)[i] in r)
  {
  }

  /** Verification can only shrink the result. */
  lemma VerifyShrinksResult(domainOrUrl: Option<string>, candidateNames: Option<seq<string>>, maxPages: int,
                            fetch: string -> Option<string>, hrefsOf: string -> seq<string>,
                            verifyEmail: (string, string) -> bool)
    ensures Discovered(domainOrUrl, candidateNames, maxPages, true, fetch, hrefsOf, verifyEmail)
         <= Discovered(domainOrUrl, candidateNames, maxPages, false, fetch, hrefsOf, verifyEmail)
  {
    if NormaliseBase(domainOrUrl).Some? {
      VerifyOnlyRemoves(NamePairs(Names(candidateNames)), DomainOf(NormaliseBase(domainOrUrl).value), verifyEmail);
    }
  }

  /** Without candidate names the result is exactly the scraped set. */
  lemma NoNamesOnlyScrapes(domainOrUrl: Option<string>, maxPages: int, verify: bool,
                           fetch: string -> Option<string>, hrefsOf: string -> seq<string>,
                           verifyEmail: (string, string) -> bool)
    requires NormaliseBase(domainOrUrl).Some?
    ensures var cfg := CrawlConfig(NormaliseBase(domainOrUrl).value, maxPages, fetch, hrefsOf);
      && Discovered(domainOrUrl, None, maxPages, verify, fetch, hrefsOf, verifyEmail) == Run(cfg, Start(cfg)).found
      && Discovered(domainOrUrl, Some([]), maxPages, verify, fetch, hrefsOf, verifyEmail) == Run(cfg, Start(cfg)).found
  {
  }
}
