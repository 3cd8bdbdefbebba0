/**
 * utils.py: the normalisers, the skip-list test, the template-driven address
 * generator and the second, stop-at-first-accepted `discover_emails`.
 *
 * The SMTP probe of that `discover_emails` is the parameter
 * `probe(address, domain)`, answering for the inner `verify_email`; the ten
 * random letters of its catch-all test are the parameter `randomLocal`.
 */
module Utils {
  import opened Wrappers
  import opened PyString

  // ---------------------------------------------------------------------------
  // Normalisation helpers
  // ---------------------------------------------------------------------------

  /** `normalize_email`: strip, then lower-case. */
  function NormalizeEmail(email: string): (r: string)
    ensures IsLower(r) && IsStripped(r)
    ensures IsLower(email) && IsStripped(email) ==> r == email
  {
    LowerKeepsStripped(Strip(email));
    Lower(Strip(email))
  }

  lemma NormalizeEmailIdempotent(email: string)
    ensures NormalizeEmail(NormalizeEmail(email)) == NormalizeEmail(email)
  {
  }

  predicate IsPhoneChar(c: char) { IsDigit(c) || c == '+' }

  /** `re.sub(r"[^\d+]", "", s)`: keeps the digits and every '+', in order. */
  function KeepPhoneChars(s: string): (r: string)
    ensures forall i :: 0 <= i < |r| ==> IsPhoneChar(r[i])
    ensures (forall i :: 0 <= i < |s| ==> IsPhoneChar(s[i])) ==> r == s
    decreases |s|
  {
    if s == [] then []
    else (if IsPhoneChar(s[0]) then [s[0]] else []) + KeepPhoneChars(s[1..])
  }

  lemma {:induction false} KeepPhoneCharsConcat(a: string, b: string)
    ensures KeepPhoneChars(a + b) == KeepPhoneChars(a) + KeepPhoneChars(b)
    decreases |a|
  {
    if a == [] {
      assert a + b == b;
    } else {
      assert (a + b)[1..] == a[1..] + b;
      KeepPhoneCharsConcat(a[1..], b);
    }
  }

  lemma {:induction false} KeepPhoneCharsDropsSpaces(s: string)
    requires forall i :: 0 <= i < |s| ==> IsSpace(s[i])
    ensures KeepPhoneChars(s) == []
    decreases |s|
  {
    if s != [] {
      KeepPhoneCharsDropsSpaces(s[1..]);
    }
  }

  /** `normalize_phone`: strip, then drop every character but digits and '+'. */
  function NormalizePhone(phone: string): (r: string)
    ensures forall i :: 0 <= i < |r| ==> IsPhoneChar(r[i])
    ensures (forall i :: 0 <= i < |phone| ==> IsPhoneChar(phone[i])) ==> r == phone
  {
    KeepPhoneChars(Strip(phone))
  }

  /** The strip in `normalize_phone` changes nothing: the filter alone decides the result. */
  lemma NormalizePhoneIsFilter(phone: string)
    ensures NormalizePhone(phone) == KeepPhoneChars(phone)
  {
    var r := Strip(phone);
    var pre, post := StripSplit(phone);
    ConcatAssoc(pre, r, post);
    KeepPhoneCharsConcat(pre + r, post);
    KeepPhoneCharsConcat(pre, r);
    KeepPhoneCharsDropsSpaces(pre);
    KeepPhoneCharsDropsSpaces(post);
  }

  lemma NormalizePhoneIdempotent(phone: string)
    ensures NormalizePhone(NormalizePhone(phone)) == NormalizePhone(phone)
  {
  }

  /** What `list_to_str` is given: a string, or an iterable of values already turned into text. */
  datatype Items = Text(text: string) | List(items: seq<string>)

  /** `list_to_str`: a string is returned as it is, anything else joined with `sep`. */
  function ListToStr(items: Items, sep: string): (r: string)
    ensures items.Text? ==> r == items.text
    ensures items.List? && items.items == [] ==> r == ""
    ensures items.List? && |items.items| == 1 ==> r == items.items[0]
  {
    match items
    case Text(t) => t
    case List(xs) => Join(sep, xs)
  }

  /** `list_to_str` undoes `split(sep)`. */
  lemma ListToStrOfSplit(s: string, sep: string)
    requires sep != []
    ensures ListToStr(List(SplitOn(s, sep)), sep) == s
  {
    JoinSplitOn(s, sep);
  }

  /** `split(sep)` undoes `list_to_str` when no item holds the separator's first character. */
  lemma SplitOfListToStr(items: seq<string>, sep: string)
    requires sep != [] && items != []
    requires forall k :: 0 <= k < |items| ==> sep[0] !in items[k]
    ensures SplitOn(ListToStr(List(items), sep), sep) == items
  {
    SplitOnJoin(sep, items);
  }

  // ---------------------------------------------------------------------------
  // Skip list
  // ---------------------------------------------------------------------------

  /** The host segment `should_skip` looks at: after the last "//"-split piece, before the first "/". */
  function HostOf(url: string): string {
    var pieces := SplitOn(url, "//");
    Lower(SplitOn(pieces[|pieces| - 1], "/")[0])
  }

  /** `should_skip`. */
  predicate ShouldSkip(url: string, skipSet: set<string>) {
    HostOf(url) in skipSet
  }

  /** A host followed by a root-relative path splits on "/" into the host first. */
  lemma HostSegment(host: string, path: string)
    requires '/' !in host
    requires path == [] || path[0] == '/'
    ensures SplitOn(host + path, "/")[0] == host
  {
    if path == [] {
      ContainsChar(host, '/');
      assert host + path == host;
      SplitOnAbsent(host, "/");
    } else {
      assert host + path == host + "/" + path[1..];
      SplitOnFirst(host, "/", path[1..]);
    }
  }

  /** For "scheme://host/path", the skip decision is the lower-cased host's membership. */
  lemma ShouldSkipUrl(scheme: string, host: string, path: string, skipSet: set<string>)
    requires '/' !in scheme && '/' !in host
    requires path == [] || path[0] == '/'
    requires !Contains(path, "//")
    ensures ShouldSkip(scheme + "//" + host + path, skipSet) <==> Lower(host) in skipSet
  {
    ContainsConcat(host, path, "//");
    SplitOnAbsent(host + path, "//");
    assert scheme + "//" + host + path == scheme + "//" + (host + path);
    SplitOnFirst(scheme, "//", host + path);
    HostSegment(host, path);
  }

  /** For a bare "host/path" without any "//", the same holds. */
  lemma ShouldSkipBareHost(host: string, path: string, skipSet: set<string>)
    requires '/' !in host
    requires path == [] || path[0] == '/'
    requires !Contains(path, "//")
    ensures ShouldSkip(host + path, skipSet) <==> Lower(host) in skipSet
  {
    ContainsConcat(host, path, "//");
    SplitOnAbsent(host + path, "//");
    HostSegment(host, path);
  }

  // ---------------------------------------------------------------------------
  // Pattern generator: generate_email_formats
  // ---------------------------------------------------------------------------

  /**
   * The replacement fields `str.format` fills in a pattern: `{first}`, `{last}`,
   * the shorthands `{f}` and `{l}` (first characters), `{d}`, and indexed
   * fields such as `{first[0]}`.
   */
  datatype Field = First | Last | F | L | D | FirstAt(index: nat) | LastAt(index: nat)

  datatype Piece = Lit(text: string) | Hole(field: Field)

  type Template = seq<Piece>

  /** `_DEFAULT_PATTERNS`, in order. */
  const DefaultPatterns: seq<Template> := [
    [Hole(First), Lit("@"), Hole(D)],
    [Hole(First), Lit("."), Hole(Last), Lit("@"), Hole(D)],
    [Hole(First), Hole(Last), Lit("@"), Hole(D)],
    [Hole(First), Lit("_"), Hole(Last), Lit("@"), Hole(D)],
    [Hole(F), Hole(Last), Lit("@"), Hole(D)],
    [Hole(First), Hole(L), Lit("@"), Hole(D)],
    [Hole(FirstAt(0)), Hole(Last), Lit("@"), Hole(D)],
    [Hole(Last), Lit("@"), Hole(D)]
  ]

  /** The text a field stands for; an index past the end raises IndexError (None). */
  function FieldValue(field: Field, first: string, last: string, d: string): Option<string>
    requires first != [] && last != []
  {
    match field
    case First => Some(first)
    case Last => Some(last)
    case F => Some([first[0]])
    case L => Some([last[0]])
    case D => Some(d)
    case FirstAt(k) => if k < |first| then Some([first[k]]) else None
    case LastAt(k) => if k < |last| then Some([last[k]]) else None
  }

  function PieceValue(p: Piece, first: string, last: string, d: string): Option<string>
    requires first != [] && last != []
  {
    match p
    case Lit(t) => Some(t)
    case Hole(field) => FieldValue(field, first, last, d)
  }

  /** `tpl.format(first=..., last=..., f=..., l=..., d=...)`. */
  function Format(tpl: Template, first: string, last: string, d: string): Option<string>
    requires first != [] && last != []
    decreases |tpl|
  {
    if tpl == [] then Some("")
    else
      var head := PieceValue(tpl[0], first, last, d);
      var rest := Format(tpl[1..], first, last, d);
      if head.Some? && rest.Some? then Some(head.value + rest.value) else None
  }

  /** One lower-cased address per template, in template order; None if some template raises. */
  function ExpandAll(tpls: seq<Template>, first: string, last: string, d: string): (r: Option<seq<string>>)
    requires first != [] && last != []
    ensures r.Some? <==> forall k :: 0 <= k < |tpls| ==> Format(tpls[k], first, last, d).Some?
    ensures r.Some? ==> |r.value| == |tpls|
    ensures r.Some? ==> forall k :: 0 <= k < |tpls| ==> r.value[k] == Lower(Format(tpls[k], first, last, d).value)
  {
    if forall k :: 0 <= k < |tpls| ==> Format(tpls[k], first, last, d).Some?
    then Some(seq(|tpls|, k requires 0 <= k < |tpls| => Lower(Format(tpls[k], first, last, d).value)))
    else None
  }

  /**
   * What `generate_email_formats(first, last, domain, patterns)` returns; None
   * when it raises IndexError (a name empty after stripping, or an indexed field
   * past the end). An empty pattern list means the defaults (`patterns or ...`).
   */
  function EmailFormats(first: string, last: string, domain: string, patterns: seq<Template>): Option<seq<string>>
  {
    var f, l := Strip(first), Strip(last);
    if f == [] || l == [] then None
    else ExpandAll(if patterns == [] then DefaultPatterns else patterns, f, l, Lower(domain))
  }

  /** The length, case and failure cases `EmailFormatsShape` states. */
  ghost predicate FormatsShaped(first: string, last: string, domain: string, patterns: seq<Template>) {
    var r := EmailFormats(first, last, domain, patterns);
    && (r.Some? ==> |r.value| == (if patterns == [] then |DefaultPatterns| else |patterns|))
    && (r.Some? ==> forall k :: 0 <= k < |r.value| ==> IsLower(r.value[k]))
    && (r.None? <==> Strip(first) == [] || Strip(last) == []
                     || exists k :: 0 <= k < |patterns| && Format(patterns[k], Strip(first), Strip(last), Lower(domain)).None?)
  }

  lemma ShapeNoName(first: string, last: string, domain: string, patterns: seq<Template>)
    requires Strip(first) == [] || Strip(last) == []
    ensures FormatsShaped(first, last, domain, patterns)
  {
  }

  lemma ShapeDefault(first: string, last: string, domain: string)
    requires Strip(first) != [] && Strip(last) != []
    ensures FormatsShaped(first, last, domain, [])
  {
    var f, l, d := Strip(first), Strip(last), Lower(domain);
    DefaultPatternsTotal(f, l, d);
    assert EmailFormats(first, last, domain, []) == ExpandAll(DefaultPatterns, f, l, d);
  }

  lemma ShapeCustom(first: string, last: string, domain: string, patterns: seq<Template>)
    requires Strip(first) != [] && Strip(last) != [] && patterns != []
    ensures FormatsShaped(first, last, domain, patterns)
  {
    var f, l, d := Strip(first), Strip(last), Lower(domain);
    assert EmailFormats(first, last, domain, patterns) == ExpandAll(patterns, f, l, d);
  }

  /** Length, case and failure cases of `generate_email_formats`. */
  lemma EmailFormatsShape(first: string, last: string, domain: string, patterns: seq<Template>)
    ensures var r := EmailFormats(first, last, domain, patterns);
      && (r.Some? ==> |r.value| == (if patterns == [] then |DefaultPatterns| else |patterns|))
      && (r.Some? ==> forall k :: 0 <= k < |r.value| ==> IsLower(r.value[k]))
      && (r.None? <==> Strip(first) == [] || Strip(last) == []
                       || exists k :: 0 <= k < |patterns| && Format(patterns[k], Strip(first), Strip(last), Lower(domain)).None?)
  {
    if Strip(first) == [] || Strip(last) == [] {
      ShapeNoName(first, last, domain, patterns);
    } else if patterns == [] {
      ShapeDefault(first, last, domain);
    } else {
      ShapeCustom(first, last, domain, patterns);
    }
  }

  /** The loop of `generate_email_formats`: fill in each template in turn, stopping at the first that raises. */
  method ExpandTemplates(tpls: seq<Template>, f: string, l: string, d: string) returns (r: Option<seq<string>>)
    requires f != [] && l != []
    ensures r == ExpandAll(tpls, f, l, d)
  {
    var result: seq<string> := [];
    for i := 0 to |tpls|
      invariant |result| == i
      invariant forall k :: 0 <= k < i ==> Format(tpls[k], f, l, d).Some?
      invariant forall k :: 0 <= k < i ==> result[k] == Lower(Format(tpls[k], f, l, d).value)
    {
      var addr := Format(tpls[i], f, l, d);
      if addr.None? {
        return None;
      }
      result := result + [Lower(addr.value)];
    }
    assert result == ExpandAll(tpls, f, l, d).value;
    return Some(result);
  }

  /** `generate_email_formats`. */
  method GenerateEmailFormats(first: string, last: string, domain: string, patterns: seq<Template>)
    returns (r: Option<seq<string>>)
    ensures r == EmailFormats(first, last, domain, patterns)
    ensures r.Some? ==> |r.value| == (if patterns == [] then |DefaultPatterns| else |patterns|)
    ensures r.Some? ==> forall k :: 0 <= k < |r.value| ==> IsLower(r.value[k])
    ensures r.None? <==> Strip(first) == [] || Strip(last) == []
                         || exists k :: 0 <= k < |patterns| && Format(patterns[k], Strip(first), Strip(last), Lower(domain)).None?
  {
    EmailFormatsShape(first, last, domain, patterns);
    var f, l := Strip(first), Strip(last);
    // `first[0]` and `last[0]` are evaluated for every template, and there is always one.
    if f == [] || l == [] {
      return None;
    }
    r := ExpandTemplates(if patterns == [] then DefaultPatterns else patterns, f, l, Lower(domain));
  }

  /** The template tails the default patterns share. */
  lemma FormatTails(f: string, l: string, d: string)
    requires f != [] && l != []
    ensures Format([Lit("@"), Hole(D)], f, l, d) == Some("@" + d)
    ensures Format([Hole(Last), Lit("@"), Hole(D)], f, l, d) == Some(l + ("@" + d))
    ensures Format([Hole(L), Lit("@"), Hole(D)], f, l, d) == Some([l[0]] + ("@" + d))
    ensures Format([Lit("."), Hole(Last), Lit("@"), Hole(D)], f, l, d) == Some("." + (l + ("@" + d)))
    ensures Format([Lit("_"), Hole(Last), Lit("@"), Hole(D)], f, l, d) == Some("_" + (l + ("@" + d)))
  {
    var at := [Lit("@"), Hole(D)];
    assert Format(at, f, l, d) == Some("@" + d) by {
      assert at[1..] == [Hole(D)];
      assert [Hole(D)][1..] == [];
      assert d + "" == d;
    }
    var tLast := [Hole(Last)] + at;
    FormatCons(Hole(Last), at, f, l, d);
    FormatCons(Hole(L), at, f, l, d);
    FormatCons(Lit("."), tLast, f, l, d);
    FormatCons(Lit("_"), tLast, f, l, d);
    assert [Hole(L)] + at == [Hole(L), Lit("@"), Hole(D)];
    assert [Lit(".")] + tLast == [Lit("."), Hole(Last), Lit("@"), Hole(D)];
    assert [Lit("_")] + tLast == [Lit("_"), Hole(Last), Lit("@"), Hole(D)];
  }

  /** The first four default templates, filled in. */
  lemma DefaultPatternsFormatLow(f: string, l: string, d: string)
    requires f != [] && l != []
    ensures Format(DefaultPatterns[0], f, l, d) == Some(f + ("@" + d))
    ensures Format(DefaultPatterns[1], f, l, d) == Some(f + "." + l + ("@" + d))
    ensures Format(DefaultPatterns[2], f, l, d) == Some(f + l + ("@" + d))
    ensures Format(DefaultPatterns[3], f, l, d) == Some(f + "_" + l + ("@" + d))
  {
    FormatTails(f, l, d);
    var a := "@" + d;
    FormatCons(Hole(First), [Lit("@"), Hole(D)], f, l, d);
    FormatCons(Hole(First), [Lit("."), Hole(Last), Lit("@"), Hole(D)], f, l, d);
    FormatCons(Hole(First), [Hole(Last), Lit("@"), Hole(D)], f, l, d);
    FormatCons(Hole(First), [Lit("_"), Hole(Last), Lit("@"), Hole(D)], f, l, d);
    assert DefaultPatterns[0] == [Hole(First)] + [Lit("@"), Hole(D)];
    assert DefaultPatterns[1] == [Hole(First)] + [Lit("."), Hole(Last), Lit("@"), Hole(D)];
    assert DefaultPatterns[2] == [Hole(First)] + [Hole(Last), Lit("@"), Hole(D)];
    assert DefaultPatterns[3] == [Hole(First)] + [Lit("_"), Hole(Last), Lit("@"), Hole(D)];
    assert f + "." + l + a == f + ("." + (l + a));
    assert f + l + a == f + (l + a);
    assert f + "_" + l + a == f + ("_" + (l + a));
  }

  /** The last four default templates, filled in. */
  lemma DefaultPatternsFormatHigh(f: string, l: string, d: string)
    requires f != [] && l != []
    ensures Format(DefaultPatterns[4], f, l, d) == Some([f[0]] + l + ("@" + d))
    ensures Format(DefaultPatterns[5], f, l, d) == Some(f + [l[0]] + ("@" + d))
    ensures Format(DefaultPatterns[6], f, l, d) == Some([f[0]] + l + ("@" + d))
    ensures Format(DefaultPatterns[7], f, l, d) == Some(l + ("@" + d))
  {
    FormatTails(f, l, d);
    var a := "@" + d;
    FormatCons(Hole(F), [Hole(Last), Lit("@"), Hole(D)], f, l, d);
    FormatCons(Hole(First), [Hole(L), Lit("@"), Hole(D)], f, l, d);
    FormatCons(Hole(FirstAt(0)), [Hole(Last), Lit("@"), Hole(D)], f, l, d);
    assert DefaultPatterns[4] == [Hole(F)] + [Hole(Last), Lit("@"), Hole(D)];
    assert DefaultPatterns[5] == [Hole(First)] + [Hole(L), Lit("@"), Hole(D)];
    assert DefaultPatterns[6] == [Hole(FirstAt(0))] + [Hole(Last), Lit("@"), Hole(D)];
    assert [f[0]] + l + a == [f[0]] + (l + a);
    assert f + [l[0]] + a == f + ([l[0]] + a);
  }

  /** No default template raises once both names are non-empty. */
  lemma DefaultPatternsTotal(f: string, l: string, d: string)
    requires f != [] && l != []
    ensures forall k :: 0 <= k < |DefaultPatterns| ==> Format(DefaultPatterns[k], f, l, d).Some?
  {
    DefaultPatternsFormat(f, l, d);
    forall k | 0 <= k < |DefaultPatterns|
      ensures Format(DefaultPatterns[k], f, l, d).Some?
    {
      assert k == 0 || k == 1 || k == 2 || k == 3 || k == 4 || k == 5 || k == 6 || k == 7;
    }
  }

  /** The eight default templates, filled in. */
  lemma DefaultPatternsFormat(f: string, l: string, d: string)
    requires f != [] && l != []
    ensures Format(DefaultPatterns[0], f, l, d) == Some(f + ("@" + d))
    ensures Format(DefaultPatterns[1], f, l, d) == Some(f + "." + l + ("@" + d))
    ensures Format(DefaultPatterns[2], f, l, d) == Some(f + l + ("@" + d))
    ensures Format(DefaultPatterns[3], f, l, d) == Some(f + "_" + l + ("@" + d))
    ensures Format(DefaultPatterns[4], f, l, d) == Some([f[0]] + l + ("@" + d))
    ensures Format(DefaultPatterns[5], f, l, d) == Some(f + [l[0]] + ("@" + d))
    ensures Format(DefaultPatterns[6], f, l, d) == Some([f[0]] + l + ("@" + d))
    ensures Format(DefaultPatterns[7], f, l, d) == Some(l + ("@" + d))
  {
    DefaultPatternsFormatLow(f, l, d);
    DefaultPatternsFormatHigh(f, l, d);
  }

  lemma FormatCons(p: Piece, rest: Template, first: string, last: string, d: string)
    requires first != [] && last != []
    requires PieceValue(p, first, last, d).Some? && Format(rest, first, last, d).Some?
    ensures Format([p] + rest, first, last, d)
         == Some(PieceValue(p, first, last, d).value + Format(rest, first, last, d).value)
  {
    assert ([p] + rest)[1..] == rest;
  }

  /** Lower-casing keeps a lower-case suffix. */
  lemma LowerKeepsSuffix(x: string, suffix: string)
    requires IsLower(suffix)
    ensures Lower(x + suffix) == Lower(x) + suffix
    ensures EndsWith(Lower(x + suffix), suffix)
  {
    LowerConcat(x, suffix);
  }

  /** Every default template ends with "@" and the domain field. */
  lemma DefaultPatternsOnDomain(f: string, l: string, d: string)
    requires f != [] && l != []
    ensures forall k :: 0 <= k < |DefaultPatterns| ==>
      Format(DefaultPatterns[k], f, l, d).Some? && EndsWith(Format(DefaultPatterns[k], f, l, d).value, "@" + d)
  {
    DefaultPatternsFormat(f, l, d);
    var a := "@" + d;
    forall k | 0 <= k < |DefaultPatterns|
      ensures Format(DefaultPatterns[k], f, l, d).Some? && EndsWith(Format(DefaultPatterns[k], f, l, d).value, a)
    {
      assert k == 0 || k == 1 || k == 2 || k == 3 || k == 4 || k == 5 || k == 6 || k == 7;
    }
  }

  /** The default expansion of non-empty names: eight addresses, each ending in "@" + the domain. */
  lemma DefaultExpansionOnDomain(f: string, l: string, d: string)
    requires f != [] && l != [] && IsLower(d)
    ensures var r := ExpandAll(DefaultPatterns, f, l, d);
      && r.Some? && |r.value| == 8
      && forall k :: 0 <= k < 8 ==> EndsWith(r.value[k], "@" + d)
  {
    DefaultPatternsOnDomain(f, l, d);
    var v := ExpandAll(DefaultPatterns, f, l, d).value;
    forall k | 0 <= k < 8
      ensures EndsWith(v[k], "@" + d)
    {
      var src := Format(DefaultPatterns[k], f, l, d).value;
      var pre := src[..|src| - |"@" + d|];
      assert src == pre + ("@" + d);
      LowerKeepsSuffix(pre, "@" + d);
    }
  }

  /**
   * With the default patterns: eight addresses, each ending in "@" + the
   * lower-cased domain.
   */
  lemma DefaultEmailFormatsOnDomain(first: string, last: string, domain: string)
    requires Strip(first) != [] && Strip(last) != []
    ensures var r := EmailFormats(first, last, domain, []);
      && r.Some? && |r.value| == 8
      && forall k :: 0 <= k < 8 ==> EndsWith(r.value[k], "@" + Lower(domain))
  {
    DefaultExpansionOnDomain(Strip(first), Strip(last), Lower(domain));
  }

  /** The first, second, third and last default addresses of non-empty names, and the fifth equal to the seventh. */
  lemma DefaultExpansion(f: string, l: string, d: string)
    requires f != [] && l != [] && IsLower(d)
    ensures var r := ExpandAll(DefaultPatterns, f, l, d);
      && r.Some? && |r.value| == 8
      && r.value[0] == Lower(f) + ("@" + d)
      && r.value[1] == Lower(f) + "." + Lower(l) + ("@" + d)
      && r.value[2] == Lower(f) + Lower(l) + ("@" + d)
      && r.value[7] == Lower(l) + ("@" + d)
      && r.value[4] == r.value[6]
  {
    DefaultPatternsTotal(f, l, d);
    var v := ExpandAll(DefaultPatterns, f, l, d).value;
    var a := "@" + d;
    assert v[0] == Lower(f) + a by {
      DefaultPatternsFormatLow(f, l, d);
      LowerKeepsSuffix(f, a);
    }
    assert v[1] == Lower(f) + "." + Lower(l) + a by {
      DefaultPatternsFormatLow(f, l, d);
      LowerKeepsSuffix(f + "." + l, a);
      LowerConcat(f + ".", l);
      LowerConcat(f, ".");
    }
    assert v[2] == Lower(f) + Lower(l) + a by {
      DefaultPatternsFormatLow(f, l, d);
      LowerKeepsSuffix(f + l, a);
      LowerConcat(f, l);
    }
    assert v[7] == Lower(l) + a && v[4] == v[6] by {
      DefaultPatternsFormatHigh(f, l, d);
      LowerKeepsSuffix(l, a);
    }
  }

  /**
   * The default list starts with first@, first.last@ and firstlast@, ends
   * with last@, and its fifth and seventh entries are the same address.
   */
  lemma DefaultEmailFormats(first: string, last: string, domain: string)
    requires Strip(first) != [] && Strip(last) != []
    ensures var r := EmailFormats(first, last, domain, []);
      var f, l, d := Lower(Strip(first)), Lower(Strip(last)), Lower(domain);
      && r.Some? && |r.value| == 8
      && r.value[0] == f + ("@" + d)
      && r.value[1] == f + "." + l + ("@" + d)
      && r.value[2] == f + l + ("@" + d)
      && r.value[7] == l + ("@" + d)
      && r.value[4] == r.value[6]
  {
    DefaultExpansion(Strip(first), Strip(last), Lower(domain));
  }

  /** The default list repeats an address, for every name. */
  lemma DefaultEmailFormatsRepeat(first: string, last: string, domain: string)
    requires Strip(first) != [] && Strip(last) != []
    ensures var r := EmailFormats(first, last, domain, []);
      r.Some? && exists i, j :: 0 <= i < j < |r.value| && r.value[i] == r.value[j]
  {
    DefaultEmailFormats(first, last, domain);
  }

  // ---------------------------------------------------------------------------
  // discover_emails (the stop-at-first-accepted variant)
  // ---------------------------------------------------------------------------

  /** The inner `generate_formats`: 18 addresses on the given domain. */
  function GenerateFormats(first: string, last: string, domain: string): (r: seq<string>)
    requires first != [] && last != []
    ensures |r| == 18
    ensures r[0] == [first[0]] + last + "@" + domain
  {
    var f, l, at := [first[0]], [last[0]], "@" + domain;
    var locals := [
      f + last, f + "." + last, f + "_" + last, f + "-" + last, first,
      first + last, first + "." + last, first + "_" + last, first + "-" + last,
      f + l, f + "." + l, f + "-" + l,
      first + l, first + "." + l, first + "_" + l, first + "-" + l,
      last, l];
    seq(|locals|, k requires 0 <= k < |locals| => locals[k] + at)
  }

  /** Every address `generate_formats` gives is on the domain. */
  lemma GenerateFormatsOnDomain(first: string, last: string, domain: string)
    requires first != [] && last != []
    ensures forall k :: 0 <= k < 18 ==> EndsWith(GenerateFormats(first, last, domain)[k], "@" + domain)
  {
    var r, at := GenerateFormats(first, last, domain), "@" + domain;
    forall k | 0 <= k < 18
      ensures EndsWith(r[k], at)
    {
      var x := r[k][..|r[k]| - |at|];
      assert r[k] == x + at;
      EndsWithAppend(x, at);
    }
  }

  /** The first candidate the probe accepts, trying them in order. */
  function FirstAccepted(candidates: seq<string>, domain: string, probe: (string, string) -> bool): (r: Option<string>)
    ensures r.None? <==> forall k :: 0 <= k < |candidates| ==> !probe(candidates[k], domain)
    ensures r.Some? ==> probe(r.value, domain)
    ensures r.Some? ==> exists k :: (0 <= k < |candidates| && candidates[k] == r.value
                                      && forall j :: 0 <= j < k ==> !probe(candidates[j], domain))
    decreases |candidates|
  {
    if candidates == [] then None
    else if probe(candidates[0], domain) then Some(candidates[0])
    else
      var r := FirstAccepted(candidates[1..], domain, probe);
      assert r.Some? ==> exists k :: (0 <= k < |candidates[1..]| && candidates[1..][k] == r.value
                                       && forall j :: 0 <= j < k ==> !probe(candidates[1..][j], domain));
      r
  }

  /** The address one full name contributes, if any. */
  function ChosenFor(fullName: string, domain: string, verify: bool, probe: (string, string) -> bool): (r: Option<string>)
    ensures r.Some? ==> |Words(fullName)| >= 2 && EndsWith(r.value, "@" + domain)
    ensures r.Some? && verify ==> probe(r.value, domain)
    ensures |Words(fullName)| >= 2 && !verify ==> r.Some?
  {
    var parts := Words(fullName);
    if |parts| < 2 then None
    else
      var first, last := Lower(parts[0]), Lower(parts[|parts| - 1]);
      var candidates := GenerateFormats(first, last, domain);
      GenerateFormatsOnDomain(first, last, domain);
      if verify then FirstAccepted(candidates, domain, probe) else Some(candidates[0])
  }

  /** What the loop over the names collects: at most one address per name, in name order. */
  function Chosen(names: seq<string>, domain: string, verify: bool, probe: (string, string) -> bool): (r: seq<string>)
    ensures |r| <= |names|
    ensures forall k :: 0 <= k < |r| ==> EndsWith(r[k], "@" + domain)
    ensures verify ==> forall k :: 0 <= k < |r| ==> probe(r[k], domain)
    decreases |names|
  {
    if names == [] then []
    else
      var prev := Chosen(names[..|names| - 1], domain, verify, probe);
      var c := ChosenFor(names[|names| - 1], domain, verify, probe);
      if c.None? then prev
      else
        var r := prev + [c.value];
        assert forall k :: 0 <= k < |prev| ==> r[k] == prev[k];
        assert r[|prev|] == c.value;
        r
  }

  const CatchAllNotice: string := "Unable to verify emails (catch-all domain)"

  /**
   * `is_catch_all(domain)` as intended: probe an address whose local part is
   * the ten random letters `randomLocal`.
   */
  predicate IsCatchAll(domain: string, randomLocal: string, probe: (string, string) -> bool) {
    probe(randomLocal + "@" + domain, domain)
  }

  /** The list `discover_emails` returns once its catch-all probe works. */
  function DiscoverResult(domain: string, names: seq<string>, verify: bool, probe: (string, string) -> bool,
                          randomLocal: string): seq<string>
  {
    if domain == "" then []
    else if verify && IsCatchAll(domain, randomLocal, probe) then [CatchAllNotice]
    else Chosen(names, domain, verify, probe)
  }

  /** A call either returns a list or raises. */
  datatype Outcome = Returned(emails: seq<string>) | Raised(error: string)

  /**
   * `discover_emails` as written: `is_catch_all` names `string`, which the
   * module never imports, so with `verify` set and a non-empty domain the call
   * raises NameError before any name is tried.
   */
  function DiscoverAsWritten(domain: string, names: seq<string>, verify: bool, probe: (string, string) -> bool): (r: Outcome)
    ensures r.Raised? <==> domain != "" && verify
    ensures r.Returned? ==> r.emails == DiscoverResult(domain, names, verify, probe, "")
  {
    if domain == "" then Returned([])
    else if verify then Raised("NameError")
    else Returned(Chosen(names, domain, false, probe))
  }

  /**
   * The two agree exactly when verification is off: any verified call on a
   * real domain raises as written, where the intended helper returns either
   * the catch-all notice or one verified address per accepted name.
   */
  lemma VerifiedCallRaises(domain: string, names: seq<string>, probe: (string, string) -> bool, randomLocal: string)
    requires domain != ""
    ensures DiscoverAsWritten(domain, names, true, probe) == Raised("NameError")
    ensures var r := DiscoverResult(domain, names, true, probe, randomLocal);
      r == [CatchAllNotice] || forall k :: 0 <= k < |r| ==> probe(r[k], domain)
    ensures DiscoverAsWritten(domain, names, false, probe) == Returned(DiscoverResult(domain, names, false, probe, randomLocal))
  {
  }

  /**
   * The body of the loop over the names: split the name, build the eighteen
   * guesses and take the first the probe accepts, or the first outright.
   */
  method ChooseAddress(fullName: string, domain: string, verify: bool, probe: (string, string) -> bool)
    returns (chosen: Option<string>)
    ensures chosen == ChosenFor(fullName, domain, verify, probe)
  {
    var nameParts := Words(fullName);
    if |nameParts| < 2 {
      return None;
    }
    var first, last := Lower(nameParts[0]), Lower(nameParts[|nameParts| - 1]);
    var candidates := GenerateFormats(first, last, domain);
    chosen := None;
    var j := 0;
    while j < |candidates|
      invariant 0 <= j <= |candidates|
      invariant chosen.None?
      invariant verify ==> FirstAccepted(candidates[j..], domain, probe) == FirstAccepted(candidates, domain, probe)
      invariant !verify ==> j == 0
    {
      if verify {
        if probe(candidates[j], domain) {
          chosen := Some(candidates[j]);
          break;
        }
        assert candidates[j..][1..] == candidates[j + 1..];
      } else {
        chosen := Some(candidates[0]);
        break;
      }
      j := j + 1;
    }
    if j == |candidates| {
      assert candidates[j..] == [];
    }
  }

  /**
   * `discover_emails(domain, candidate_names, max_pages, verify)`; `max_pages`
   * is unused, as in the source.
   */
  method DiscoverEmails(domain: string, candidateNames: seq<string>, maxPages: int, verify: bool,
                        probe: (string, string) -> bool, randomLocal: string)
    returns (foundEmails: seq<string>)
    ensures foundEmails == DiscoverResult(domain, candidateNames, verify, probe, randomLocal)
    ensures domain == "" ==> foundEmails == []
    ensures domain != "" && verify && IsCatchAll(domain, randomLocal, probe) ==> foundEmails == [CatchAllNotice]
    ensures domain != "" && !(verify && IsCatchAll(domain, randomLocal, probe)) ==>
      && |foundEmails| <= |candidateNames|
      && (forall k :: 0 <= k < |foundEmails| ==> EndsWith(foundEmails[k], "@" + domain))
      && (verify ==> forall k :: 0 <= k < |foundEmails| ==> probe(foundEmails[k], domain))
  {
    if domain == "" {
      return [];
    }
    foundEmails := [];
    if verify && probe(randomLocal + "@" + domain, domain) {
      return [CatchAllNotice];
    }
    for i := 0 to |candidateNames|
      invariant foundEmails == Chosen(candidateNames[..i], domain, verify, probe)
    {
      assert candidateNames[..i + 1][..i] == candidateNames[..i];
      var chosen := ChooseAddress(candidateNames[i], domain, verify, probe);
      if chosen.Some? {
        foundEmails := foundEmails + [chosen.value];
      }
    }
    assert candidateNames[..|candidateNames|] == candidateNames;
  }

  /** Without verification each name of two or more tokens yields initial + last name on the domain. */
  lemma PlainChoiceIsInitialLast(fullName: string, domain: string, probe: (string, string) -> bool)
    requires |Words(fullName)| >= 2
    ensures var w := Words(fullName);
      ChosenFor(fullName, domain, false, probe)
        == Some([LowerChar(w[0][0])] + Lower(w[|w| - 1]) + "@" + domain)
  {
  }

  /**
   * With verification a name of two or more tokens yields an address exactly
   * when the probe accepts one of its eighteen formats, and then the first
   * accepted one in format order.
   */
  lemma VerifiedChoiceIsFirstAccepted(fullName: string, domain: string, probe: (string, string) -> bool)
    requires |Words(fullName)| >= 2
    ensures var w := Words(fullName);
      var c := GenerateFormats(Lower(w[0]), Lower(w[|w| - 1]), domain);
      var r := ChosenFor(fullName, domain, true, probe);
      && (r.Some? <==> exists k :: 0 <= k < |c| && probe(c[k], domain))
      && (r.Some? ==> exists k :: 0 <= k < |c| && c[k] == r.value && forall j :: 0 <= j < k ==> !probe(c[j], domain))
  {
  }

  /** Number of names with at least two whitespace tokens. */
  function TwoTokenNames(names: seq<string>): nat
    decreases |names|
  {
    if names == [] then 0
    else TwoTokenNames(names[..|names| - 1]) + (if |Words(names[|names| - 1])| >= 2 then 1 else 0)
  }

  /** Without verification the result has exactly one address per name of two or more tokens. */
  lemma {:induction false} PlainChoiceCount(names: seq<string>, domain: string, probe: (string, string) -> bool)
    ensures |Chosen(names, domain, false, probe)| == TwoTokenNames(names)
    decreases |names|
  {
    if names != [] {
      PlainChoiceCount(names[..|names| - 1], domain, probe);
    }
  }

  /** "A B" gives the initial of A followed by B, lower-cased, on the domain. */
  lemma PlainChoiceOfTwo(a: string, b: string, domain: string, probe: (string, string) -> bool)
    requires a != [] && b != [] && NoSpace(a) && NoSpace(b)
    ensures ChosenFor(a + " " + b, domain, false, probe) == Some([LowerChar(a[0])] + Lower(b) + "@" + domain)
  {
    WordsOfTwo(a, b);
    PlainChoiceIsInitialLast(a + " " + b, domain, probe);
  }

  /** The loop over the names works name by name: the choices of `a + b` are those of `a` followed by those of `b`. */
  lemma {:induction false} ChosenConcat(a: seq<string>, b: seq<string>, domain: string, verify: bool, probe: (string, string) -> bool)
    ensures Chosen(a + b, domain, verify, probe) == Chosen(a, domain, verify, probe) + Chosen(b, domain, verify, probe)
    decreases |b|
  {
    if b == [] {
      assert a + b == a;
    } else {
      var b0 := b[..|b| - 1];
      var c := ChosenFor(b[|b| - 1], domain, verify, probe);
      var tail := if c.Some? then [c.value] else [];
      assert (a + b)[..|a + b| - 1] == a + b0;
      assert (a + b)[|a + b| - 1] == b[|b| - 1];
      assert Chosen(a + b, domain, verify, probe) == Chosen(a + b0, domain, verify, probe) + tail;
      assert Chosen(b, domain, verify, probe) == Chosen(b0, domain, verify, probe) + tail;
      ChosenConcat(a, b0, domain, verify, probe);
      ConcatAssoc(Chosen(a, domain, verify, probe), Chosen(b0, domain, verify, probe), tail);
    }
  }

  /** One name contributes exactly its own choice, if it has one. */
  lemma ChosenSingle(name: string, domain: string, verify: bool, probe: (string, string) -> bool)
    ensures var c := ChosenFor(name, domain, verify, probe);
      Chosen([name], domain, verify, probe) == if c.Some? then [c.value] else []
  {
    assert [name][..0] == [];
  }

  /** Two names that each yield an address give those two addresses, in order. */
  lemma ChosenPair(n1: string, n2: string, domain: string, verify: bool, probe: (string, string) -> bool, a1: string, a2: string)
    requires ChosenFor(n1, domain, verify, probe) == Some(a1) && ChosenFor(n2, domain, verify, probe) == Some(a2)
    ensures Chosen([n1, n2], domain, verify, probe) == [a1, a2]
  {
    var names := [n1, n2];
    assert names[..1] == [n1];
    assert names[..1][..0] == [];
  }

  /** The result is not deduplicated: a repeated name gives a repeated address. */
  lemma ChosenKeepsRepeats(probe: (string, string) -> bool)
    ensures Chosen(["Jo Doe", "Jo Doe"], "acme.test", false, probe) == ["jdoe@acme.test", "jdoe@acme.test"]
  {
    JoDoe("Jo Doe", probe);
    ChosenPair("Jo Doe", "Jo Doe", "acme.test", false, probe, "jdoe@acme.test", "jdoe@acme.test");
  }

  /** The result is not sorted: it follows the order of the names. */
  lemma ChosenFollowsNameOrder(probe: (string, string) -> bool)
    ensures var r := Chosen(["Zoe Yu", "Jo Doe"], "acme.test", false, probe);
      r == ["zyu@acme.test", "jdoe@acme.test"] && Less(r[1], r[0])
  {
    JoDoe("Jo Doe", probe);
    ZoeYu("Zoe Yu", probe);
    ChosenPair("Zoe Yu", "Jo Doe", "acme.test", false, probe, "zyu@acme.test", "jdoe@acme.test");
    assert Less("jdoe@acme.test", "zyu@acme.test");
  }

  /** A two-token name and the address it is known to give. */
  lemma PlainChoiceExample(name: string, a: string, b: string, domain: string, addr: string, probe: (string, string) -> bool)
    requires a != [] && b != [] && NoSpace(a) && NoSpace(b) && name == a + " " + b
    requires addr == [LowerChar(a[0])] + Lower(b) + "@" + domain
    ensures ChosenFor(name, domain, false, probe) == Some(addr)
  {
    PlainChoiceOfTwo(a, b, domain, probe);
  }

  lemma JoDoeParts(name: string)
    requires name == "Jo Doe"
    ensures NoSpace("Jo") && NoSpace("Doe") && name == "Jo" + " " + "Doe"
    ensures [LowerChar("Jo"[0])] + Lower("Doe") + "@" + "acme.test" == "jdoe@acme.test"
  {
    assert forall i :: 0 <= i < 3 ==> Lower("Doe")[i] == "doe"[i];
  }

  lemma JoDoe(name: string, probe: (string, string) -> bool)
    requires name == "Jo Doe"
    ensures ChosenFor(name, "acme.test", false, probe) == Some("jdoe@acme.test")
  {
    JoDoeParts(name);
    PlainChoiceExample(name, "Jo", "Doe", "acme.test", "jdoe@acme.test", probe);
  }

  lemma ZoeYuParts(name: string)
    requires name == "Zoe Yu"
    ensures NoSpace("Zoe") && NoSpace("Yu") && name == "Zoe" + " " + "Yu"
    ensures [LowerChar("Zoe"[0])] + Lower("Yu") + "@" + "acme.test" == "zyu@acme.test"
  {
    assert forall i :: 0 <= i < 2 ==> Lower("Yu")[i] == "yu"[i];
  }

  lemma ZoeYu(name: string, probe: (string, string) -> bool)
    requires name == "Zoe Yu"
    ensures ChosenFor(name, "acme.test", false, probe) == Some("zyu@acme.test")
  {
    ZoeYuParts(name);
    PlainChoiceExample(name, "Zoe", "Yu", "acme.test", "zyu@acme.test", probe);
  }
}
