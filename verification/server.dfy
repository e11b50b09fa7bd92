/** The seed-URL check and the wiki naming of server.py: `validate_fandom_url`,
    `get_wiki_name`, and the `{wiki}_characters.json` file names that the
    scrape, list and read endpoints build and take apart. */
module Server {
  import opened Wrappers
  import opened Strings

  // ---------------------------------------------------------------------------
  // urlparse, as far as the scheme and the network location go

  /** The characters `urllib.parse` allows in a scheme. */
  predicate IsSchemeChar(c: char) {
    ('a' <= c <= 'z') || ('A' <= c <= 'Z') || ('0' <= c <= '9') || c == '+' || c == '-' || c == '.'
  }

  predicate IsAsciiLetter(c: char) {
    ('a' <= c <= 'z') || ('A' <= c <= 'Z')
  }

  /** `(scheme, rest)`: the text before the first `:` is a scheme when it is
      non-empty, starts with an ASCII letter and holds only scheme
      characters; otherwise there is no scheme and nothing is consumed. */
  datatype SchemeSplit = SchemeSplit(scheme: string, rest: string)

  function SplitScheme(u: string): (r: SchemeSplit)
    ensures r.scheme == [] ==> r.rest == u
    ensures r.scheme != [] ==> |r.scheme| < |u| && u[|r.scheme|] == ':' && r.rest == u[|r.scheme| + 1..]
  {
    var head := CutAtAny(u, ":");
    if 0 < |head| < |u| && IsAsciiLetter(head[0]) && forall i :: 0 <= i < |head| ==> IsSchemeChar(head[i])
    then SchemeSplit(Lower(head), u[|head| + 1..])
    else SchemeSplit([], u)
  }

  /** What `urlparse` gives or raises, as far as it matters here. */
  datatype Parsed = Parsed(scheme: string, netloc: string) | Invalid

  /** A network location with an unmatched bracket makes `urlparse` raise
      `ValueError`. */
  predicate BadBrackets(netloc: string) {
    ('[' in netloc) != (']' in netloc)
  }

  /** `urlparse(u)`: after the scheme, a `//` opens the network location,
      which runs to the next `/`, `?` or `#`. */
  function UrlParse(u: string): (r: Parsed)
    ensures r.Parsed? ==> forall i :: 0 <= i < |r.netloc| ==> r.netloc[i] !in "/?#"
  {
    var sp := SplitScheme(u);
    if StartsWith(sp.rest, "//") then
      var netloc := CutAtAny(sp.rest[2..], "/?#");
      if BadBrackets(netloc) then Invalid else Parsed(sp.scheme, netloc)
    else Parsed(sp.scheme, [])
  }

  // ---------------------------------------------------------------------------
  // validate_fandom_url

  const ErrRequired := "L'URL est requise"
  const ErrInvalid := "URL invalide"
  const ErrMalformed := "URL mal formée"
  const ErrNotFandom := "L'URL doit être une URL Fandom valide"

  /** The `(url, error)` pair the check returns. */
  datatype Checked = Checked(url: Option<string>, error: Option<string>)

  /** The cleaned form: stripped, with `https://` put in front unless it
      already starts with `http://` or `https://`. */
  function Normalize(s: string): (r: string)
    ensures HasHttpScheme(r)
    ensures HasHttpScheme(Strip(s)) ==> r == Strip(s)
    ensures !HasHttpScheme(Strip(s)) ==> r == "https://" + Strip(s)
  {
    var t := Strip(s);
    if HasHttpScheme(t) then t else "https://" + t
  }

  /** The checks that follow the normalisation: `urlparse` must not raise,
      scheme and network location must both be non-empty, and the URL must
      contain `fandom.com`. */
  function CheckNormalized(u: string): (r: Checked)
    ensures r.url.Some? != r.error.Some?
    ensures r.url.Some? <==>
      && UrlParse(u).Parsed? && UrlParse(u).scheme != [] && UrlParse(u).netloc != []
      && Contains(u, "fandom.com")
    ensures r.url.Some? ==> r.url.value == u
    ensures r.error != Some(ErrRequired)
    ensures r.error == Some(ErrMalformed) <==> UrlParse(u).Invalid?
    ensures r.error == Some(ErrInvalid) <==>
      UrlParse(u).Parsed? && (UrlParse(u).scheme == [] || UrlParse(u).netloc == [])
    ensures r.error == Some(ErrNotFandom) <==>
      && UrlParse(u).Parsed? && UrlParse(u).scheme != [] && UrlParse(u).netloc != []
      && !Contains(u, "fandom.com")
  {
    var p := UrlParse(u);
    if p.Invalid? then Checked(None, Some(ErrMalformed))
    else if p.scheme == [] || p.netloc == [] then Checked(None, Some(ErrInvalid))
    else if !Contains(u, "fandom.com") then Checked(None, Some(ErrNotFandom))
    else Checked(Some(u), None)
  }

  /** `validate_fandom_url`: `(url, None)` for an accepted URL, `(None, error)`
      otherwise. */
  function ValidateFandomUrl(input: Option<string>): (r: Checked)
    ensures r.url.Some? != r.error.Some?
    ensures r.error == Some(ErrRequired) <==> input.None? || input.value == ""
    ensures r.url.Some? <==>
      && input.Some? && input.value != ""
      && UrlParse(Normalize(input.value)).Parsed?
      && UrlParse(Normalize(input.value)).scheme != []
      && UrlParse(Normalize(input.value)).netloc != []
      && Contains(Normalize(input.value), "fandom.com")
    ensures r.url.Some? ==> r.url.value == Normalize(input.value) && HasHttpScheme(r.url.value)
  {
    if input.None? || input.value == "" then Checked(None, Some(ErrRequired))
    else CheckNormalized(Normalize(input.value))
  }

  // ---------------------------------------------------------------------------
  // get_wiki_name and the file names

  /** `urlparse(url).netloc.split('.')[0]`; `None` where `urlparse` raises. */
  function GetWikiName(u: string): (r: Option<string>)
    ensures r.Some? <==> UrlParse(u).Parsed?
    ensures r.Some? ==> r.value <= UrlParse(u).netloc && '.' !in r.value
    ensures r.Some? ==> |r.value| == |UrlParse(u).netloc| || UrlParse(u).netloc[|r.value|] == '.'
  {
    var p := UrlParse(u);
    if p.Invalid? then None
    else
      var w := CutAt(p.netloc, ".");
      ContainsChar(w, '.');
      Some(w)
  }

  const FileSuffix := "_characters.json"

  /** `f'{wiki_name}_characters.json'`. */
  function FileName(w: string): (r: string)
    ensures w <= r && EndsWith(r, FileSuffix) && |r| == |w| + |FileSuffix|
  {
    w + FileSuffix
  }

  /** `file.replace('_characters.json', '')`. */
  function WikiOf(f: string): (r: string)
    ensures |r| <= |f|
    ensures !Contains(f, FileSuffix) ==> r == f
  {
    ReplaceAll(f, FileSuffix, "")
  }

  /** The `/wikis` listing: the wiki names of the files that end in the
      suffix, in directory order. */
  function ListWikis(files: seq<string>): (r: seq<string>)
    ensures |r| <= |files|
  {
    if |files| == 0 then []
    else (if EndsWith(files[0], FileSuffix) then [WikiOf(files[0])] else []) + ListWikis(files[1..])
  }

  // ---------------------------------------------------------------------------
  // Facts about the check

  /** A URL that starts with `http://` or `https://` parses with that scheme
      and with the network location that follows the two slashes. */
  lemma ParseHttp(u: string, scheme: string, after: string)
    requires (scheme == "http" || scheme == "https") && u == scheme + "://" + after
    ensures UrlParse(u) == (if BadBrackets(CutAtAny(after, "/?#")) then Invalid
                            else Parsed(scheme, CutAtAny(after, "/?#")))
  {
    HttpIsLowerScheme(scheme);
    assert scheme + "://" + after == scheme + (":" + ("//" + after));
    UrlParseSlashes(u, scheme, after);
  }

  /** A non-empty scheme in lower case, as `urlparse` accepts and returns it. */
  predicate LowerScheme(sc: string) {
    && sc != [] && IsAsciiLetter(sc[0])
    && forall i :: 0 <= i < |sc| ==> IsSchemeChar(sc[i]) && sc[i] != ':' && !('A' <= sc[i] <= 'Z')
  }

  lemma HttpIsLowerScheme(sc: string)
    requires sc == "http" || sc == "https"
    ensures LowerScheme(sc)
  {
  }

  /** Lower-casing text without capitals changes nothing. */
  lemma LowerNoCapitals(s: string)
    requires forall i :: 0 <= i < |s| ==> !('A' <= s[i] <= 'Z')
    ensures Lower(s) == s
  {
  }

  /** The scheme is read off up to the first ':'. */
  lemma SplitSchemeOf(u: string, sc: string, rest: string)
    requires LowerScheme(sc) && u == sc + (":" + rest)
    ensures SplitScheme(u) == SchemeSplit(sc, rest)
  {
    CutAtAnyUnique(u, ":", sc);
    LowerNoCapitals(sc);
    assert u[|sc| + 1..] == rest;
  }

  /** After the scheme, "//" opens the network location. */
  lemma UrlParseSlashes(u: string, sc: string, after: string)
    requires LowerScheme(sc) && u == sc + (":" + ("//" + after))
    ensures UrlParse(u) == (if BadBrackets(CutAtAny(after, "/?#")) then Invalid
                            else Parsed(sc, CutAtAny(after, "/?#")))
  {
    SplitSchemeOf(u, sc, "//" + after);
    assert ("//" + after)[2..] == after;
  }

  /** Whitespace only: stripping leaves "", which becomes "https://", whose
      network location is empty. */
  lemma WhitespaceOnlyIsInvalid(s: string)
    requires s != [] && AllSpace(s)
    ensures ValidateFandomUrl(Some(s)) == Checked(None, Some(ErrInvalid))
  {
    StripAllSpace(s);
    assert Normalize(s) == "https" + "://" + [];
    ParseHttp(Normalize(s), "https", []);
  }

  /** Once the text is non-empty and its normal form parses with a scheme
      and a network location, only the substring test is left. */
  lemma CheckAfterParse(s: string, u: string, scheme: string, netloc: string)
    requires s != [] && u == Normalize(s)
    requires UrlParse(u) == Parsed(scheme, netloc) && scheme != [] && netloc != []
    ensures ValidateFandomUrl(Some(s))
         == if Contains(u, "fandom.com") then Checked(Some(u), None) else Checked(None, Some(ErrNotFandom))
  {
    assert ValidateFandomUrl(Some(s)) == CheckNormalized(u);
  }

  /** `https://` in front of a host: the host is the network location. */
  lemma ParseHostUrl(u: string, h: string, tail: string)
    requires u == "https://" + (h + tail)
    requires forall i :: 0 <= i < |h| ==> h[i] !in "/?#[]"
    requires tail == [] || tail[0] in "/?#"
    ensures UrlParse(u) == Parsed("https", h)
  {
    var after := h + tail;
    assert u == "https" + "://" + after;
    CutAtAnyUnique(after, "/?#", h);
    ParseHttp(u, "https", after);
    assert '[' !in h && ']' !in h;
  }

  /** `fandom.com` does not start inside `https://`. */
  lemma FandomAfterScheme(u: string, h: string)
    requires u == "https://" + h
    ensures Contains(u, "fandom.com") <==> Contains(h, "fandom.com")
  {
    if Contains(h, "fandom.com") {
      ContainsExtend("https://", h, "fandom.com");
    }
    if Contains(u, "fandom.com") {
      ContainsAfter("https://", h, "fandom.com");
    }
  }

  /** A host name: no whitespace at its ends, no `http(s)://` in front, and
      none of `/?#[]` inside. */
  predicate BareHost(h: string) {
    && h != [] && !IsSpace(h[0]) && !IsSpace(h[|h| - 1])
    && !HasHttpScheme(h)
    && forall i :: 0 <= i < |h| ==> h[i] !in "/?#[]"
  }

  /** A bare host gets `https://` in front and becomes the network location. */
  lemma BareHostParses(h: string, u: string)
    requires BareHost(h) && u == "https://" + h
    ensures u == Normalize(h) && UrlParse(u) == Parsed("https", h)
  {
    StripTrimmed(h);
    assert h == h + [];
    ParseHostUrl(u, h, []);
  }

  /** A bare host name gets `https://` in front; the result is accepted
      exactly when the host contains `fandom.com`. */
  lemma BareHostChecked(h: string, u: string)
    requires BareHost(h) && u == "https://" + h
    ensures ValidateFandomUrl(Some(h))
         == if Contains(h, "fandom.com") then Checked(Some(u), None) else Checked(None, Some(ErrNotFandom))
  {
    BareHostParses(h, u);
    FandomAfterScheme(u, h);
    CheckAfterParse(h, u, "https", h);
  }

  const LeagueHost := "leagueoflegends.fandom.com"
  const LeagueUrl := "https://" + LeagueHost

  /** Character facts about the two example hosts, kept apart so that each
      literal is unfolded only once. */
  lemma LeagueHostChars(h: string)
    requires h == LeagueHost
    ensures forall i :: 0 <= i < |h| ==> h[i] !in "/?#[]"
  {
  }

  lemma LeagueHostIsBare(h: string)
    requires h == LeagueHost
    ensures BareHost(h)
  {
    LeagueHostChars(h);
  }

  lemma LeagueHostOnFandom(h: string)
    requires h == LeagueHost
    ensures Contains(h, "fandom.com")
  {
    assert h[16..] == "fandom.com";
    ContainsAt(h, "fandom.com", 16);
  }

  lemma BareFandomHostAccepted()
    ensures ValidateFandomUrl(Some(LeagueHost)) == Checked(Some(LeagueUrl), None)
  {
    LeagueHostIsBare(LeagueHost);
    LeagueHostOnFandom(LeagueHost);
    BareHostChecked(LeagueHost, LeagueUrl);
  }

  lemma ExampleHostIsBare(h: string)
    requires h == "example.com"
    ensures BareHost(h) && 'f' !in h
  {
  }

  lemma BareOtherHostRejected()
    ensures ValidateFandomUrl(Some("example.com")) == Checked(None, Some(ErrNotFandom))
  {
    ExampleHostIsBare("example.com");
    MissingChar("example.com", "fandom.com", 0);
    BareHostChecked("example.com", "https://" + "example.com");
  }

  /** A URL that already starts with `https://` and ends in a non-space is
      its own normal form. */
  lemma HttpsUrlNormal(u: string, rest: string)
    requires u == "https://" + rest && rest != [] && !IsSpace(rest[|rest| - 1])
    ensures Normalize(u) == u
  {
    assert "https://" <= u && u[|u| - 1] == rest[|rest| - 1];
    HttpUrlNormal(u);
  }

  /** A URL with an http scheme and no trailing whitespace is left alone. */
  lemma HttpUrlNormal(u: string)
    requires HasHttpScheme(u) && !IsSpace(u[|u| - 1])
    ensures Normalize(u) == u
  {
    assert u[0] == 'h';
    StripTrimmed(u);
  }

  /** The domain check is a substring test on the whole URL: `fandom.com` in
      the path is enough, whatever the host. */
  lemma FandomInPathAccepted(h: string, path: string, u: string)
    requires h != [] && forall i :: 0 <= i < |h| ==> h[i] !in "/?#[]"
    requires path != [] && !IsSpace(path[|path| - 1]) && Contains(path, "fandom.com")
    requires u == "https://" + (h + ("/" + path))
    ensures ValidateFandomUrl(Some(u)) == Checked(Some(u), None)
  {
    PathUrlFacts(h, path, u, "fandom.com");
    CheckAfterParse(u, u, "https", h);
  }

  /** A host and a path: the URL is normal, parses with that host and
      contains what the path contains. */
  lemma PathUrlFacts(h: string, path: string, u: string, q: string)
    requires forall i :: 0 <= i < |h| ==> h[i] !in "/?#[]"
    requires path != [] && !IsSpace(path[|path| - 1]) && Contains(path, q)
    requires u == "https://" + (h + ("/" + path))
    ensures Normalize(u) == u && UrlParse(u) == Parsed("https", h) && Contains(u, q)
  {
    HttpsUrlNormal(u, h + ("/" + path));
    ParseHostUrl(u, h, "/" + path);
    PathOccurrence("https://", h, path, q);
  }

  /** What the path contains, the whole URL contains. */
  lemma PathOccurrence(x: string, h: string, path: string, q: string)
    requires Contains(path, q)
    ensures Contains(x + (h + ("/" + path)), q)
  {
    ContainsExtend("/", path, q);
    ContainsExtend(h, "/" + path, q);
    ContainsExtend(x, h + ("/" + path), q);
  }

  lemma ExampleOrgHost(h: string, path: string)
    requires h == "example.org" && path == "fandom.com"
    ensures forall i :: 0 <= i < |h| ==> h[i] !in "/?#[]"
    ensures !IsSpace(path[|path| - 1]) && Contains(path, "fandom.com")
  {
    ContainsAt(path, "fandom.com", 0);
  }

  /** `https://example.org/fandom.com` is accepted although its host is not a
      Fandom host. */
  lemma ExampleOrgWithFandomPath()
    ensures ValidateFandomUrl(Some("https://" + ("example.org" + ("/" + "fandom.com"))))
         == Checked(Some("https://" + ("example.org" + ("/" + "fandom.com"))), None)
  {
    ExampleOrgHost("example.org", "fandom.com");
    FandomInPathAccepted("example.org", "fandom.com", "https://" + ("example.org" + ("/" + "fandom.com")));
  }

  /** Every accepted URL parses with scheme `http` or `https`, so the scrape
      endpoint always gets a wiki name for it. */
  lemma AcceptedUrlParses(input: Option<string>, u: string)
    requires ValidateFandomUrl(input).url == Some(u)
    ensures UrlParse(u).Parsed? && (UrlParse(u).scheme == "http" || UrlParse(u).scheme == "https")
    ensures GetWikiName(u).Some?
  {
    HttpScheme(u);
  }

  /** `urlparse` reads `http` or `https` off a URL that starts with it. */
  lemma HttpScheme(u: string)
    requires HasHttpScheme(u) && UrlParse(u).Parsed?
    ensures UrlParse(u).scheme == "http" || UrlParse(u).scheme == "https"
  {
    if StartsWith(u, "http://") {
      HttpSplit(u, "http");
    } else {
      HttpSplit(u, "https");
    }
  }

  /** Splitting an `http(s)://` URL at its scheme. */
  lemma HttpSplit(u: string, scheme: string)
    requires (scheme == "http" || scheme == "https") && StartsWith(u, scheme + "://")
    ensures UrlParse(u) == (if BadBrackets(CutAtAny(u[|scheme| + 3..], "/?#")) then Invalid
                            else Parsed(scheme, CutAtAny(u[|scheme| + 3..], "/?#")))
  {
    assert u == scheme + "://" + u[|scheme| + 3..];
    ParseHttp(u, scheme, u[|scheme| + 3..]);
  }

  /** The wiki name is the host up to its first dot. */
  lemma WikiNameOfHost(a: string, b: string, tail: string, u: string)
    requires forall i :: 0 <= i < |a| ==> a[i] !in "./?#[]"
    requires forall i :: 0 <= i < |b| ==> b[i] !in "/?#[]"
    requires tail == [] || tail[0] in "/?#"
    requires u == "https://" + (a + ("." + b) + tail)
    ensures GetWikiName(u) == Some(a)
  {
    assert forall i :: 0 <= i < |a + ("." + b)| ==> (a + ("." + b))[i] !in "/?#[]";
    ParseHostUrl(u, a + ("." + b), tail);
    assert CutAt(a + ("." + b), ".") == a by {
      NoMatchBefore(a, "." + b, ".", 0);
      CutAtSkip(a, "." + b, ".");
      assert CutAt("." + b, ".") == [];
    }
  }

  /** The spider's default seed URL belongs to the wiki `leagueoflegends`. */
  lemma LeagueWikiName(u: string)
    requires u == "https://" + ("leagueoflegends" + ("." + "fandom.com") + "/wiki/League_of_Legends_Wiki")
    ensures GetWikiName(u) == Some("leagueoflegends")
  {
    WikiNameOfHost("leagueoflegends", "fandom.com", "/wiki/League_of_Legends_Wiki", u);
  }

  /** Replacing a pattern in itself leaves nothing. */
  lemma ReplaceWhole(p: string)
    requires |p| > 0
    ensures ReplaceAll(p, p, "") == []
  {
    assert p[|p|..] == [];
  }

  /** For a name without a dot the file name passes the suffix filter of the
      listing and `replace` gives the name back. */
  lemma FileNameRoundTrip(w: string)
    requires '.' !in w
    ensures EndsWith(FileName(w), FileSuffix)
    ensures WikiOf(FileName(w)) == w
  {
    FileSuffixShape(FileSuffix);
    SuffixRoundTrip(w, FileSuffix, 11);
  }

  lemma FileSuffixShape(m: string)
    requires m == FileSuffix
    ensures |m| > 11 && m[11] == '.'
    ensures forall j :: 0 < j <= 11 ==> m[j] != m[0]
  {
  }

  /** Appending a suffix and replacing it away gives the text back, when a
      character of the suffix keeps it from starting inside the text. */
  lemma SuffixRoundTrip(w: string, sfx: string, k: nat)
    requires k < |sfx| && sfx[k] !in w
    requires forall j :: 0 < j <= k ==> sfx[j] != sfx[0]
    ensures EndsWith(w + sfx, sfx)
    ensures ReplaceAll(w + sfx, sfx, "") == w
  {
    NoMatchBefore(w, sfx, sfx, k);
    ReplaceAllSkip(w, sfx, sfx, "");
    ReplaceWhole(sfx);
    assert w + [] == w;
    assert (w + sfx)[|w|..] == sfx;
  }

  /** A listed file of a dot-free name adds that name to the listing. */
  lemma ListWikisFileCons(w: string, files: seq<string>)
    requires '.' !in w
    ensures ListWikis([FileName(w)] + files) == [w] + ListWikis(files)
  {
    FileNameRoundTrip(w);
    assert ([FileName(w)] + files)[1..] == files;
  }

  /** The file the scrape endpoint looks for after a crawl of an accepted URL
      is listed under the wiki name the endpoint computed. */
  lemma ScrapedWikiListed(input: Option<string>, u: string)
    requires ValidateFandomUrl(input).url == Some(u)
    ensures GetWikiName(u).Some?
    ensures ListWikis([FileName(GetWikiName(u).value)]) == [GetWikiName(u).value]
  {
    AcceptedUrlParses(input, u);
    var w := GetWikiName(u).value;
    ListWikisFileCons(w, []);
    assert [FileName(w)] + [] == [FileName(w)];
  }

  /** The one feed file the spider writes, whatever the seed URL. */
  const CrawlFeed := "characters.json"

  /** The listing skips the spider's feed file, since it has no wiki name in
      front of the suffix. */
  lemma CrawlFeedNotListed()
    ensures ListWikis([CrawlFeed]) == []
  {
    assert !EndsWith(CrawlFeed, FileSuffix);
  }

  /** The file names of a list of dot-free wiki names. */
  function FileNames(ws: seq<string>): (r: seq<string>)
    ensures |r| == |ws| && forall i :: 0 <= i < |ws| ==> r[i] == FileName(ws[i])
  {
    if |ws| == 0 then [] else [FileName(ws[0])] + FileNames(ws[1..])
  }

  /** Listing the files of names without dots gives the names back, in
      order. */
  lemma {:induction false} ListWikisOfFileNames(ws: seq<string>)
    requires forall i :: 0 <= i < |ws| ==> '.' !in ws[i]
    ensures ListWikis(FileNames(ws)) == ws
    decreases |ws|
  {
    if |ws| > 0 {
      ListWikisFileCons(ws[0], FileNames(ws[1..]));
      ListWikisOfFileNames(ws[1..]);
      assert ws == [ws[0]] + ws[1..];
    }
  }

  /** Files without the suffix are skipped. */
  lemma {:induction false} ListWikisSkipsOthers(files: seq<string>, others: seq<string>)
    requires forall i :: 0 <= i < |others| ==> !EndsWith(others[i], FileSuffix)
    ensures ListWikis(others + files) == ListWikis(files)
    decreases |others|
  {
    if |others| > 0 {
      assert (others + files)[1..] == others[1..] + files;
      ListWikisSkipsOthers(files, others[1..]);
    } else {
      assert others + files == files;
    }
  }
}
