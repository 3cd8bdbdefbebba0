# Email discovery, modelled in Dafny

This project models the email-discovery core of a lead-generation tool. Given
a company domain and optional "First Last" names, the tool returns candidate
email addresses. The model covers three source files:

- **`email_search.py`**
  - `discover_emails` normalises the input to a base URL.
  - It crawls a bounded worklist of likely pages (`DEFAULT_PATHS` plus
    contact/team/about links), scrapes the addresses visible on them and
    drops blacklisted ones.
  - It guesses eight pattern addresses per tokenised name, optionally keeping
    only those an SMTP verifier accepts.
  - It returns the sorted, de-duplicated set.
- **`utils.py`**
  - The template-driven `generate_email_formats` and the normalisers
    `normalize_email`, `normalize_phone`, `list_to_str` and `should_skip`.
  - A second, divergent `discover_emails`. It keeps at most one address per
    name: the first of 18 formats the verifier accepts.
- **`email_tool.py`**
  - `prepare_email_body_for_template`.
  - The case- and blank-insensitive column lookup `find_column`, and the
    identical `pick` in `normalize_crm_columns`.
  - The row-level `safe_get`.

Modules: `Wrappers` (Option), `PyString` (the Python `str` operations the code
relies on), `EmailSearch`, `Utils` and `EmailTool`.

The network is a parameter of the model:

| oracle | stands for |
|---|---|
| `fetch(url)` | what `_safe_get` returns: the page text, or None |
| `hrefsOf(text)` | the `href` list BeautifulSoup finds on the page |
| `verifyEmail(address, domain)` | `utils.verify_email` |
| `probe(address, domain)` | the inner `verify_email` of `utils.discover_emails` |
| `randomLocal` | the ten random letters of `is_catch_all` |

The crawl, the guessing loops, `_tokenise_names`, `generate_email_formats` and
the utils name loop are imperative methods. Each is proved equal to a
specification function:

- `Crawl` equals `Run(Start(cfg))`;
- `TokeniseNames` equals `NamePairs`;
- `GuessAddresses` equals `Guessed`;
- `GenerateEmailFormats` equals `EmailFormats`;
- `Utils.DiscoverEmails` equals `DiscoverResult`.

The properties are then proved about those functions.

Where the code and its documentation disagree, the model follows the code:

- **Crawl budget.** The `max_pages` budget at `email_search.py:94` only gates
  collecting new links. It does not cap the number of pages fetched, although
  the docstring (`email_search.py:65`) says traversal stops after `max_pages`
  unique pages.
  - `EmailSearch.CrawlFetchesPastBudget` derives four fetches with
    `max_pages == 2`.
  - What does hold is that fewer than `max_pages` pages contribute links
    (`EmailSearch.CrawlFacts`), and the initial worklist has at most
    `max_pages` entries.
- **Blacklist.** `_email_ok` rejects an address in which a blacklisted domain
  occurs anywhere as a substring, not only in its domain part. For example,
  `jo@myexample.com` is rejected.
- **No catch-all test in `email_search.py`.** Its `discover_emails` has none:
  a verified guess is kept whenever the verifier accepts it. Only
  `utils.discover_emails` has a catch-all test, and as written that test
  raises (see Findings).
- **`normalize_phone`.** The docstring speaks of keeping a *leading* '+', but
  the code keeps every '+' anywhere.

## Model

| member | source | states |
|---|---|---|
| PyString.Lower | email_search.py:159 | `lower()` keeps the length, lower-cases each ASCII letter pointwise, yields a lower-case string and leaves a lower-case string unchanged |
| PyString.Strip | email_search.py:134 | `strip()` result has no whitespace at either end and is no longer than the input; a stripped input is returned unchanged |
| PyString.StripSplit | email_search.py:134 | the input is its `strip()` result with only whitespace before and after it |
| PyString.Words | email_search.py:174 | `split()` yields non-empty whitespace-free tokens |
| PyString.WordsStrip | email_search.py:174 | `s.strip().split()` equals `s.split()` |
| PyString.RStrip | email_search.py:137 | `rstrip(c)` is a prefix of the input, does not end in `c`, and only `c` characters were removed |
| PyString.TakePrefix | email_search.py:79 | Python slice `[:n]` is a prefix of length `min(n, len)` for `n >= 0` and drops `-n` elements from the end for negative `n` |
| PyString.Replace | email_tool.py:240 | `replace` leaves a string that does not contain the pattern unchanged |
| PyString.JoinSplitOn | utils.py:59 | joining the pieces of `split(sep)` with `sep` gives the original string back |
| PyString.SortedList | email_search.py:119 | `sorted(set)` is strictly increasing in Python string order, has exactly the set's elements, and has the set's size (no duplicates) |
| EmailSearch.EmailOkIsSubstringTest | email_search.py:162-165 | the blacklist rejects `jo@example.com` and also `jo@myexample.com`, because the test is a substring test |
| EmailSearch.EmailOkPlainAddress | email_search.py:23-30 | an address on a domain outside the blacklist passes `_email_ok` |
| EmailSearch.LowerCharClass | email_search.py:125 | lower-casing keeps a character inside, or outside, each character class of the address pattern |
| EmailSearch.MatchAt | email_search.py:125 | a match found at position `i` lies inside the text and is a whole `local@host.tail` match with its `@` and dot positions |
| EmailSearch.FindAll | email_search.py:125 | every string `findall` returns is an address-shaped match |
| EmailSearch.FindAllOneAddress | email_search.py:125 | the scanner skips a character that cannot start a match and returns the whole address `Jo@Acme.test` |
| EmailSearch.ExtractEmails | email_search.py:158-160 | every extracted address is lower-case, blacklist-free and address-shaped; a lower-cased match is present exactly when it passes the blacklist; every result is the lower-cased form of some match |
| EmailSearch.ExtractSingle | email_search.py:158-160 | a text whose only match passes the blacklist yields exactly that match lower-cased |
| EmailSearch.ExtractOneAddress | email_search.py:158-160 | `" Jo@Acme.test"` yields exactly `{"jo@acme.test"}` |
| EmailSearch.NormaliseBase | email_search.py:128-137 | None exactly for a missing or empty input; otherwise the input stripped and given `https://` when it has no case-insensitive http(s) scheme, minus only trailing "/"; the result is non-empty and never ends in "/" |
| EmailSearch.NormaliseStripped | email_search.py:134-137 | for a non-empty stripped input, normalising is adding the scheme, then `rstrip("/")` |
| EmailSearch.NormaliseAddsScheme | email_search.py:135-136 | a bare domain just gets `https://` in front |
| EmailSearch.NormaliseBareDomain | email_search.py:130 | `example.com` becomes `https://example.com` |
| EmailSearch.NormaliseBlank | email_search.py:132-137 | a whitespace-only input is not rejected: it normalises to `https:` |
| EmailSearch.NormaliseBaseStable | email_search.py:128-137 | a schemed, stripped base without a trailing "/" normalises to itself |
| EmailSearch.NormaliseDropsSlashes | email_search.py:137 | trailing "//" is stripped from a schemed input |
| EmailSearch.NormaliseBaseNotIdempotent | email_search.py:128-137 | normalising is not idempotent: `http://` becomes `http:`, which then gets a second scheme |
| EmailSearch.Absolute | email_search.py:139-147 | an http(s) link unchanged, a root-relative link appended to the base, every other link None |
| EmailSearch.AbsoluteKeepsScheme | email_search.py:139-147 | with a schemed base every resolved link is schemed and non-empty |
| EmailSearch.LinkFrom | email_search.py:98-101 | an href contributes a URL exactly when it holds a keyword and `_absolute(base, href)` is a non-empty, unvisited, non-binary URL; the URL contributed is `_absolute(base, href)` |
| EmailSearch.NewLinks | email_search.py:96-101 | a page appends at most one URL per href, each non-empty, unvisited and not binary; a URL is appended exactly when some href of the page contributes it |
| EmailSearch.NewLinksConcat | email_search.py:96-101 | links are appended in href order: the links of `a + b` are those of `a` followed by those of `b` |
| EmailSearch.NamePair | email_search.py:174-180 | a name yields a pair exactly when it has two or more tokens whose first and last are alphabetic; the pair is those tokens lower-cased |
| EmailSearch.NamePairs | email_search.py:172-181 | at most one pair per name, each made of lower-case alphabetic tokens |
| EmailSearch.TokeniseNames | email_search.py:167-181 | the loop returns `NamePairs(names)` |
| EmailSearch.NamePairsConcat | email_search.py:173-180 | tokenising keeps name order: it distributes over concatenation |
| EmailSearch.SingleTokenSkipped | email_search.py:175-176 | a name with fewer than two tokens contributes nothing |
| EmailSearch.TwoAlphaTokens | email_search.py:174-180 | "First Last" with alphabetic tokens gives the lower-cased pair |
| EmailSearch.NonAlphaTokenSkipped | email_search.py:178-179 | a name whose last token is not alphabetic contributes nothing |
| EmailSearch.SeedUrls | email_search.py:79 | one seed URL per default path: seven |
| EmailSearch.InitialPages | email_search.py:79 | the initial worklist is a prefix of the seeds with Python slice length; for `max_pages >= 0` it has at most `max_pages` entries |
| EmailSearch.Visit | email_search.py:85-101 | visiting a new URL adds it to `visited` and appends it to the fetch log; `found` gains exactly the addresses extracted from the page the fetch returned (none for a failed or empty fetch); the page is recorded as link-contributing exactly when links are collected from it; the new worklist is the old one plus the page's `NewLinks` when the fetch returned a non-empty page and fewer than `max_pages` URLs are now visited, and the old one unchanged otherwise; the worklist only grows; links are appended only while fewer than `max_pages` URLs are visited, and appending lowers the remaining budget |
| EmailSearch.Step | email_search.py:82-101 | one loop iteration advances by one entry, only extends the worklist, only grows `visited`, and either leaves the worklist alone or lowers the budget (the termination argument) |
| EmailSearch.Run | email_search.py:82-103 | the loop ends with the whole worklist processed |
| EmailSearch.StartInv | email_search.py:79-80 | the crawl invariant holds for the initial worklist and the empty sets |
| EmailSearch.StepPagesInv | email_search.py:99-101 | the initial worklist is never changed and nothing appended to it is binary |
| EmailSearch.SkipKeepsFetchInv | email_search.py:83-84 | skipping a visited or binary entry keeps the fetch invariant |
| EmailSearch.VisitKeepsFetchInv | email_search.py:85-87 | fetching a new non-binary entry keeps the fetch invariant: no URL is fetched twice, `visited` is exactly the set of fetched URLs, every processed entry is visited or binary |
| EmailSearch.StepFetchInv | email_search.py:82-89 | every iteration keeps the fetch invariant |
| EmailSearch.StepFoundInv | email_search.py:91 | the found set stays lower-case, blacklist-free and address-shaped |
| EmailSearch.ScrapedMembers | email_search.py:88-91 | an address is scraped from a list of fetched URLs exactly when the page of one of them holds it |
| EmailSearch.StepScrapeInv | email_search.py:85-91 | every iteration keeps `found` equal to the union of the addresses extracted from the pages fetched so far |
| EmailSearch.StepLinkInv | email_search.py:94-101 | link collection happens only on visited pages and on fewer than `max_pages` of them |
| EmailSearch.StepInv | email_search.py:82-101 | every iteration keeps the whole crawl invariant |
| EmailSearch.RunInv | email_search.py:82-103 | the crawl invariant holds when the loop ends |
| EmailSearch.CrawlFacts | email_search.py:79-101 | after the crawl: no URL fetched twice; visited exactly the fetched URLs, failed fetches included; nothing binary fetched or appended; every non-binary worklist entry visited; initial worklist kept; found addresses lower-case, blacklist-free matches, and exactly the union of the addresses extracted from every fetched page; fewer than `max_pages` link-contributing pages |
| EmailSearch.CrawlScrapes | email_search.py:82-91 | an address is in the crawl's found set exactly when one of the pages the crawl fetched holds it |
| EmailSearch.AppendLinks | email_search.py:96-101 | the href loop appends exactly `NewLinks` to the worklist |
| EmailSearch.VisitPage | email_search.py:85-101 | the loop body for a new, non-binary URL: marks it visited and fetched, adds the page's addresses when the page is non-empty, and appends its new links only while fewer than `max_pages` URLs are visited; the result is exactly `Visit` |
| EmailSearch.Crawl | email_search.py:79-103 | the crawl loop computes `Run` from the initial state; its fetch log has no duplicates, equals `visited` as a set and holds nothing binary; found addresses are lower-case, blacklist-free matches, exactly those extracted from the fetched pages |
| EmailSearch.NotBinaryByLastChars | email_search.py:20 | a URL ending in 'm', or in 't' after anything but 'p', does not match `BINARY_EXT_RE` |
| EmailSearch.FollowsKeywordPath | email_search.py:98-101 | an unvisited `/about` or `/team` href is followed as `base + path` |
| EmailSearch.StepWithoutLinks | email_search.py:94 | a visit once the budget is used up fetches the page and appends nothing |
| EmailSearch.StepWithLinks | email_search.py:94-101 | a visit of a non-empty page while the budget lasts appends the page's new links |
| EmailSearch.DrainWithoutLinks | email_search.py:82-94 | with the budget used up, every remaining distinct, new, non-binary worklist entry is still fetched, in order |
| EmailSearch.TwoSeeds | email_search.py:79 | `[:2]` keeps the base and its `/contact` page |
| EmailSearch.FirstStep | email_search.py:82-101 | with `max_pages == 2` the first visit fetches the base and appends `/about` and `/team` |
| EmailSearch.CrawlFetchesPastBudget | email_search.py:94-101 | with `max_pages == 2` and every page linking to `/about` and `/team`, four URLs are fetched: the budget does not cap fetches |
| EmailSearch.AcmeFetchesFour | email_search.py:79-101 | the same for the base `https://acme.test` |
| EmailSearch.PairGuesses | email_search.py:111 | a tokenised pair yields eight lower-case guesses, each ending in `@` + the lower-cased domain |
| EmailSearch.Accepted | email_search.py:111-117 | a guess of one pair is kept exactly when it is one of the pair's lower-cased guesses and, with `verify`, the verifier accepts it |
| EmailSearch.AcceptedKeeps | email_search.py:112-117 | kept guesses keep the case and domain suffix of the generated ones and are verified when `verify` is set |
| EmailSearch.Guessed | email_search.py:110-117 | every guess kept over all pairs is lower-case, on the domain, and verified when `verify` is set; every guess of every pair is kept when `verify` is off or the verifier accepts it |
| EmailSearch.VerifyOnlyRemoves | email_search.py:115-116 | the guesses kept with verification are a subset of those kept without it |
| EmailSearch.GuessedFromPatterns | email_search.py:110-117 | every kept guess is one of the eight patterns of some pair |
| EmailSearch.AddAccepted | email_search.py:111-117 | the guess loop for one pair adds exactly the accepted guesses to `found` |
| EmailSearch.GuessAddresses | email_search.py:106-117 | the pair loop adds exactly `Guessed` to `found` |
| EmailSearch.DomainStripsScheme | email_search.py:107 | `base.split("//")[-1]` of `scheme//host` is the host |
| EmailSearch.Discovered | email_search.py:72-119 | no base gives the empty set; every returned address is lower-case |
| EmailSearch.DiscoverEmails | email_search.py:47-119 | returns exactly the discovered set, strictly sorted (hence duplicate-free); a missing or empty input returns `[]` and fetches nothing; the URLs requested are the crawl's, none twice, none binary |
| EmailSearch.DiscoveredSound | email_search.py:106-119 | every returned address was scraped by the crawl (and is a blacklist-free match), or was not scraped and is one of the eight patterns of a tokenised name, accepted by the verifier when `verify` is set |
| EmailSearch.DiscoveredComplete | email_search.py:91-117 | nothing scraped is dropped, and every pattern of every valid pair is returned when `verify` is off or the verifier accepts it |
| EmailSearch.VerifyShrinksResult | email_search.py:115-116 | the result with `verify` is a subset of the result without it |
| EmailSearch.NoNamesOnlyScrapes | email_search.py:106 | with no names (None or empty) the result is exactly the scraped set |
| Utils.NormalizeEmail | utils.py:47-49 | the result is lower-case with no whitespace at either end; such an input is returned unchanged |
| Utils.NormalizeEmailIdempotent | utils.py:47-49 | `normalize_email` is idempotent |
| Utils.KeepPhoneChars | utils.py:53 | the filter keeps only (ASCII) digits and '+' and leaves a string of those unchanged |
| Utils.KeepPhoneCharsConcat | utils.py:53 | the filter works piece by piece |
| Utils.NormalizePhone | utils.py:51-53 | the result holds only (ASCII) digits and '+'; such an input is returned unchanged |
| Utils.NormalizePhoneIsFilter | utils.py:53 | the `strip()` changes nothing: the result is the filter applied to the raw input |
| Utils.NormalizePhoneIdempotent | utils.py:51-53 | `normalize_phone` is idempotent |
| Utils.ListToStr | utils.py:55-59 | a string is returned unchanged; an empty list gives ""; a one-item list gives that item |
| Utils.ListToStrOfSplit | utils.py:59 | `list_to_str` undoes `split(sep)` |
| Utils.SplitOfListToStr | utils.py:59 | `split(sep)` undoes `list_to_str` when no item holds the separator's first character |
| Utils.ShouldSkipUrl | utils.py:151-154 | for `scheme//host/path`, `should_skip` is true exactly when the lower-cased host is in the skip set |
| Utils.ShouldSkipBareHost | utils.py:151-154 | the same for a bare `host/path` |
| Utils.ExpandAll | utils.py:85-92 | one lower-cased address per template, in template order, or None exactly when some template raises |
| Utils.ExpandTemplates | utils.py:85-93 | the template loop returns `ExpandAll` |
| Utils.EmailFormatsShape | utils.py:76-93 | one lower-case address per pattern (eight for the defaults); None exactly when a stripped name is empty or a pattern indexes past a name |
| Utils.GenerateEmailFormats | utils.py:76-93 | `generate_email_formats`: equals `EmailFormats`, with its length, case and failure cases |
| Utils.DefaultPatternsFormatLow | utils.py:66-69 | the first four default templates give `first@d`, `first.last@d`, `firstlast@d`, `first_last@d` |
| Utils.DefaultPatternsFormatHigh | utils.py:70-73 | the last four give `flast@d`, `firstl@d`, `flast@d`, `last@d` |
| Utils.DefaultPatternsFormat | utils.py:65-74 | all eight default templates, filled in |
| Utils.DefaultPatternsTotal | utils.py:65-74 | no default template raises once both names are non-empty |
| Utils.DefaultPatternsOnDomain | utils.py:65-74 | every default template yields an address ending in `@` + domain |
| Utils.DefaultExpansionOnDomain | utils.py:83-92 | the default templates filled in with non-empty names give eight addresses, each ending in `@` + the (lower-case) domain |
| Utils.DefaultEmailFormatsOnDomain | utils.py:83-92 | with the defaults, eight addresses, each ending in `@` + the lower-cased domain |
| Utils.DefaultExpansion | utils.py:65-74 | for non-empty names the default expansion starts with `first@d`, `first.last@d`, `firstlast@d`, ends with `last@d`, and repeats element 4 as element 6 |
| Utils.DefaultEmailFormats | utils.py:65-74 | with the defaults, element 0 is `first@d`, 1 is `first.last@d`, 2 is `firstlast@d`, the last is `last@d`, and elements 4 and 6 coincide |
| Utils.DefaultEmailFormatsRepeat | utils.py:70-72 | the default list repeats an address for every name: it is not duplicate-free |
| Utils.GenerateFormats | utils.py:213-221 | the inner `generate_formats` gives 18 addresses, the first being initial + last + `@` + domain |
| Utils.GenerateFormatsOnDomain | utils.py:213-221 | every one of the 18 addresses ends in `@` + domain |
| Utils.FirstAccepted | utils.py:256-260 | the first candidate the probe accepts, with every earlier one rejected; None exactly when none is accepted |
| Utils.ChosenFor | utils.py:248-264 | a name contributes only with two or more tokens and only an address on the domain; with `verify` the address was accepted; without `verify` every such name contributes |
| Utils.Chosen | utils.py:248-264 | at most one address per name, each on the domain and accepted when `verify` is set; with `ChosenConcat` and `ChosenSingle` the list is each name's own choice, in name order |
| Utils.ChosenConcat | utils.py:248-264 | the name loop works name by name: the addresses of `a + b` are those of `a` followed by those of `b` |
| Utils.ChosenSingle | utils.py:249-264 | one name contributes exactly its own choice (`ChosenFor`), or nothing |
| Utils.DiscoverAsWritten | utils.py:238-246 | as written, a call raises exactly when the domain is non-empty and `verify` is set; otherwise it returns what the intended function returns |
| Utils.VerifiedCallRaises | utils.py:240-246 | a verified call on a real domain raises NameError as written, where the intended function returns the catch-all notice or only accepted addresses; unverified calls agree |
| Utils.ChooseAddress | utils.py:249-264 | what the loop body appends for one name is exactly `ChosenFor`: nothing below two tokens, else the first guess the probe accepts, or the first guess outright without `verify` |
| Utils.DiscoverEmails | utils.py:196-266 | returns `DiscoverResult`: `[]` for an empty domain, the single notice for a catch-all domain when verifying, otherwise at most one address per name, on the domain, verified when `verify` is set |
| Utils.PlainChoiceIsInitialLast | utils.py:261-264 | without `verify` a name of two or more tokens yields the lower-cased initial and last name + "@" + the domain as given |
| Utils.VerifiedChoiceIsFirstAccepted | utils.py:252-260 | with `verify` a name of two or more tokens yields an address exactly when the probe accepts one of its 18 formats, and then the first accepted one in format order |
| Utils.PlainChoiceCount | utils.py:248-264 | without `verify` the result has exactly one address per name of two or more tokens |
| Utils.PlainChoiceOfTwo | utils.py:249-253 | "A B" yields the initial of A and B, lower-cased, on the domain |
| Utils.ChosenPair | utils.py:248-264 | two names that each yield an address give exactly those two addresses, in name order |
| Utils.ChosenKeepsRepeats | utils.py:248-266 | the result is not de-duplicated: a repeated name gives a repeated address |
| Utils.ChosenFollowsNameOrder | utils.py:248-266 | the result is not sorted: it follows the order of the names |
| Utils.JoDoe | utils.py:252-263 | "Jo Doe" yields `jdoe@acme.test` |
| Utils.ZoeYu | utils.py:252-263 | "Zoe Yu" yields `zyu@acme.test` |
| EmailTool.PrepareEmailBody | email_tool.py:237-248 | the output holds no "\n" and no "**" |
| EmailTool.RemovalLeavesNoDoubleStar | email_tool.py:240 | removing "**" leaves no two adjacent stars |
| EmailTool.ReplaceKeepsNoDoubleStar | email_tool.py:243-246 | the newline replacements cannot create "**" |
| EmailTool.PairThenSingle | email_tool.py:246 | replacing a doubled character by a doubled replacement first changes nothing once every single occurrence is replaced |
| EmailTool.ParagraphsThenLines | email_tool.py:246 | replacing "\n\n" by two `<br>` first changes nothing once every "\n" becomes `<br>` |
| EmailTool.PrepareIsLineBreakSubstitution | email_tool.py:240-248 | the output is the input with "**" removed, "\r\n" turned into "\n", then every "\n" replaced by `<br>` |
| EmailTool.PlainTextUnchanged | email_tool.py:240-248 | text with no "**" and no newline comes back unchanged |
| EmailTool.ColumnKey | email_tool.py:124 | a key is lower-case with no whitespace at either end |
| EmailTool.Keys | email_tool.py:122 | the key of every label, in order |
| EmailTool.MapOf | email_tool.py:122 | the dict built from pairs holds exactly the given keys |
| EmailTool.MapOfKeepsLast | email_tool.py:122 | each key holds the value of the last pair with that key |
| EmailTool.ColumnMap | email_tool.py:122 | the column dict holds exactly the columns' keys |
| EmailTool.FirstHit | email_tool.py:123-127 | the value of the first key present, with every earlier key absent; None exactly when no key is present |
| EmailTool.PickFirstMatchWins | email_tool.py:58-63 | a candidate matching some column decides `pick`; later candidates are never looked at |
| EmailTool.PickSkipsUnmatched | email_tool.py:58-63 | a candidate matching no column is skipped |
| EmailTool.PickColumn | email_tool.py:122 | the column a key maps to has that key, and no later column has it |
| EmailTool.PickCandidate | email_tool.py:123-126 | the candidate `pick` settles on matches a column, no earlier candidate matches any column, and the column found is what its own key maps to |
| EmailTool.FindColumn | email_tool.py:119-121 | a missing data frame gives None |
| EmailTool.FindColumnSound | email_tool.py:122-126 | a found column is one of the columns; its key is the key of a candidate; no earlier candidate matches any column; no later column has the same key |
| EmailTool.FindColumnComplete | email_tool.py:119-127 | nothing is found exactly when no candidate's key is a column's key |
| EmailTool.LaterColumnWins | email_tool.py:122-126 | of two columns with the same key the later one is returned, whatever case and blanks the candidate uses |
| EmailTool.SafeGet | email_tool.py:313-318 | "" exactly for a missing column, a NaN, a blank value or "nan" in any case; otherwise the stripped text; never a "nan" |
| EmailTool.SafeGetStable | email_tool.py:313-318 | reading back a cleaned value gives the same value |

## Left out

- Network I/O is not modelled. `_safe_get` (`email_search.py:149-156`),
  `verify_email` (`utils.py:96-116`) and the inner SMTP/DNS probe
  (`utils.py:223-236`) are the oracle parameters listed above. So are their
  HTTP status, content-type and timeout rules.
- BeautifulSoup parsing is left out: a page's `href` list is the oracle
  `hrefsOf`.
- The polite delay `time.sleep(random.uniform(...))` (`email_search.py:103`)
  is left out: it has no effect on the result.
- The ten random letters of `is_catch_all` are the parameter `randomLocal`:
  randomness is not modelled.
- The fallback definitions of `email_search.py:33-41` are not modelled. They
  are import-time behaviour, and the model always uses the `utils`
  implementations.
- Utils.KeepPhoneChars: keeps ASCII digits only. The pattern `[^\d+]`
  keeps every Unicode decimal digit (Arabic-Indic digits, for example); the
  model drops them.
- Utils.NormalizePhone: for the same reason, drops the non-ASCII decimal
  digits that `normalize_phone` keeps.
- Case mapping covers ASCII only. Python's `lower()`, `isalpha()` and
  `re.I` on non-ASCII letters are not modelled. Whitespace follows Python's
  `isspace` set.
- `EMAIL_RE.findall` is a hand-written scanner for that one pattern, not a
  regular-expression engine.
- `Iterable` arguments are sequences, and the pandas data frame is its list
  of column labels. Non-string labels, for which `strip()` would raise, are
  not modelled.
- Each cell of a row is missing or is the text `str(value)` gives. How
  `str()` renders non-text values is left out.
- Utils.ListToStr takes its items already rendered as text: the
  `map(str, items)` step of `sep.join(map(str, items))` is left out.
- `generate_email_formats` templates are parsed `str.format` templates over
  the fields the code supplies. Format specs, conversions, attribute access
  and unknown field names (KeyError) are not modelled. An index past a name
  (IndexError) is modelled.
- `utils.safe_get`, `safe_scrape`, `load_skip_domains` and the rest of the
  repository (UI, agents, tasks, OpenAI and SendGrid calls, the construction
  of the `normalize_crm_columns` frame) are outside this model.
- EmailSearch.Discovered: its own contract states only emptiness and the
  lower case of the result. Soundness and completeness are the separate
  lemmas `DiscoveredSound` and `DiscoveredComplete`.

## Findings

| source | as written | input that shows it | evidently intended | confidence | as-written member | corrected member |
|---|---|---|---|---|---|---|
| utils.py:240 | `is_catch_all` calls `random.choices(string.ascii_lowercase, k=10)`, but `utils.py` never imports `string` (imports at `utils.py:4-20`). So `discover_emails` raises NameError at `utils.py:245` before any name is tried | `discover_emails("acme.test", ["Jo Doe"], verify=True)` | import `string` and probe a random ten-letter local part; report the catch-all notice if it is accepted, otherwise return the first accepted format per name | not executed | Utils.DiscoverAsWritten, Utils.VerifiedCallRaises | Utils.DiscoverEmails |
