/** The deterministic logic of `FandomSpider`
    (scraper/scraper/spiders/fandom_spider.py): character-page detection, the
    link-following rule shared by the three `parse*` handlers, the routing of
    links to handlers, and the item built by `parse_character`. CSS selection
    is an oracle: a page maps a selector to the list `getall()` returns. */
module Spider {
  import opened Wrappers
  import opened Strings
  import opened Items
  import opened ImageUrl

  // ---------------------------------------------------------------------------
  // Pages and the selection oracle

  /** A downloaded page: its URL and, per selector, what `getall()` gives. */
  datatype Page = Page(url: string, css: map<string, seq<string>>)

  function GetAll(p: Page, sel: string): seq<string> {
    if sel in p.css then p.css[sel] else []
  }

  /** `.get()`: the first result, if any. */
  function Get(p: Page, sel: string): (r: Option<string>)
    ensures r.Some? <==> |GetAll(p, sel)| > 0
    ensures r.Some? ==> r.value == GetAll(p, sel)[0]
  {
    if |GetAll(p, sel)| > 0 then Some(GetAll(p, sel)[0]) else None
  }

  /** The truthiness of a `SelectorList`: something matched. */
  predicate Selects(p: Page, sel: string) {
    |GetAll(p, sel)| > 0
  }

  /** The callbacks a request can carry. */
  datatype Handler = Parse | ParseCharacterList | ParseCategory | ParseCharacter

  /** `response.follow(link, callback)`; relative-URL resolution is not
      modelled, so the request keeps the href as written. */
  datatype Request = Request(href: string, callback: Handler)

  // ---------------------------------------------------------------------------
  // is_character_page

  const InfoboxSelector := ".portable-infobox"
  const LabelSelectors := [
    ".pi-data-label:contains(\"Status\")",
    ".pi-data-label:contains(\"Species\")",
    ".pi-data-label:contains(\"Gender\")",
    ".pi-data-label:contains(\"Occupation\")",
    ".pi-data-label:contains(\"Affiliation\")"
  ]
  const UrlMarkers := ["characters/", "/character/", "/champion/", "/hero/"]

  /** The ten indicators, in source order: six selections, then four
      substrings of the lower-cased URL. */
  function Indicators(p: Page): (r: seq<bool>)
    ensures |r| == 10
    ensures r[0] == Selects(p, InfoboxSelector)
    ensures forall i :: 0 <= i < 5 ==> r[1 + i] == Selects(p, LabelSelectors[i])
    ensures forall i :: 0 <= i < 4 ==> r[6 + i] == Contains(Lower(p.url), UrlMarkers[i])
  {
    var l := Lower(p.url);
    [Selects(p, InfoboxSelector)]
      + seq(5, i requires 0 <= i < 5 => Selects(p, LabelSelectors[i]))
      + seq(4, i requires 0 <= i < 4 => Contains(l, UrlMarkers[i]))
  }

  /** `sum(bool(i) for i in indicators)`. */
  function CountTrue(bs: seq<bool>): (n: nat)
    ensures n <= |bs|
  {
    if |bs| == 0 then 0 else (if bs[0] then 1 else 0) + CountTrue(bs[1..])
  }

  predicate IsCharacterPage(p: Page) {
    CountTrue(Indicators(p)) >= 2
  }

  /** At least two of a sequence hold exactly when two distinct positions
      hold. */
  lemma {:induction false} CountTrueAtLeastTwo(bs: seq<bool>)
    ensures CountTrue(bs) >= 2 <==> exists i, j :: 0 <= i < j < |bs| && bs[i] && bs[j]
    decreases |bs|
  {
    if |bs| > 0 {
      CountTrueAtLeastTwo(bs[1..]);
      CountTruePositive(bs[1..]);
      if CountTrue(bs) >= 2 {
        if bs[0] {
          var k := CountTrueWitness(bs[1..]);
          assert bs[0] && bs[k + 1];
        } else {
          var i, j :| 0 <= i < j < |bs[1..]| && bs[1..][i] && bs[1..][j];
          assert bs[i + 1] && bs[j + 1];
        }
      }
      if exists i, j :: 0 <= i < j < |bs| && bs[i] && bs[j] {
        var i, j :| 0 <= i < j < |bs| && bs[i] && bs[j];
        if i == 0 {
          assert bs[1..][j - 1];
        } else {
          assert bs[1..][i - 1] && bs[1..][j - 1];
        }
      }
    }
  }

  lemma {:induction false} CountTruePositive(bs: seq<bool>)
    ensures CountTrue(bs) > 0 <==> exists k :: 0 <= k < |bs| && bs[k]
    decreases |bs|
  {
    if |bs| > 0 {
      CountTruePositive(bs[1..]);
      if exists k :: 0 <= k < |bs| && bs[k] {
        var k :| 0 <= k < |bs| && bs[k];
        if k > 0 {
          assert bs[1..][k - 1];
        }
      }
      if exists k :: 0 <= k < |bs[1..]| && bs[1..][k] {
        var k :| 0 <= k < |bs[1..]| && bs[1..][k];
        assert bs[k + 1];
      }
    }
  }

  lemma CountTrueWitness(bs: seq<bool>) returns (k: nat)
    requires CountTrue(bs) > 0
    ensures k < |bs| && bs[k]
  {
    CountTruePositive(bs);
    k :| 0 <= k < |bs| && bs[k];
  }

  /** A page is a character page exactly when two different indicators
      hold. */
  lemma CharacterPageIffTwo(p: Page)
    ensures IsCharacterPage(p) <==>
      exists i, j :: 0 <= i < j < 10 && Indicators(p)[i] && Indicators(p)[j]
  {
    CountTrueAtLeastTwo(Indicators(p));
  }

  /** Pointwise more evidence never lowers the count. */
  lemma {:induction false} CountTrueMonotone(bs: seq<bool>, cs: seq<bool>)
    requires |bs| == |cs| && forall i :: 0 <= i < |bs| && bs[i] ==> cs[i]
    ensures CountTrue(bs) <= CountTrue(cs)
    decreases |bs|
  {
    if |bs| > 0 {
      CountTrueMonotone(bs[1..], cs[1..]);
    }
  }

  /** Adding evidence never turns a character page into a non-character
      page. */
  lemma MoreEvidenceKeepsCharacterPage(p: Page, q: Page)
    requires forall i :: 0 <= i < 10 && Indicators(p)[i] ==> Indicators(q)[i]
    requires IsCharacterPage(p)
    ensures IsCharacterPage(q)
  {
    CountTrueMonotone(Indicators(p), Indicators(q));
  }

  /** A single true position counts one. */
  lemma {:induction false} CountTrueSingle(bs: seq<bool>, k: nat)
    requires k < |bs| && forall i :: 0 <= i < |bs| && i != k ==> !bs[i]
    ensures CountTrue(bs) == (if bs[k] then 1 else 0)
    decreases |bs|
  {
    if k == 0 {
      CountTrueNone(bs[1..]);
    } else {
      CountTrueSingle(bs[1..], k - 1);
    }
  }

  lemma {:induction false} CountTrueNone(bs: seq<bool>)
    requires forall i :: 0 <= i < |bs| ==> !bs[i]
    ensures CountTrue(bs) == 0
    decreases |bs|
  {
    if |bs| > 0 {
      CountTrueNone(bs[1..]);
    }
  }

  /** No indicator suffices on its own. */
  lemma OneIndicatorNeverSuffices(p: Page, k: nat)
    requires k < 10 && forall i :: 0 <= i < 10 && i != k ==> !Indicators(p)[i]
    ensures !IsCharacterPage(p)
  {
    CountTrueSingle(Indicators(p), k);
  }

  /** The URL indicators look at the lower-cased URL only: lower-casing the
      URL first changes nothing. */
  lemma IndicatorsIgnoreCase(p: Page)
    ensures Indicators(p.(url := Lower(p.url))) == Indicators(p)
    ensures IsCharacterPage(p.(url := Lower(p.url))) == IsCharacterPage(p)
  {
    LowerIdempotent(p.url);
  }

  // ---------------------------------------------------------------------------
  // Following links

  /** The set of the strings of a sequence. */
  function Elems(s: seq<string>): set<string> {
    set i | 0 <= i < |s| :: s[i]
  }

  /** No string occurs twice. */
  predicate Distinct(s: seq<string>) {
    forall i, j :: 0 <= i < j < |s| ==> s[i] != s[j]
  }

  /** What following links from `visited` must achieve: the followed hrefs
      are non-empty, new and pairwise different, and afterwards the visited
      set holds exactly the old entries and the followed ones. */
  predicate FollowsFresh(visited: set<string>, hrefs: seq<string>, visited2: set<string>) {
    && (forall i :: 0 <= i < |hrefs| ==> hrefs[i] != "" && hrefs[i] !in visited)
    && Distinct(hrefs)
    && visited2 == visited + Elems(hrefs)
  }

  datatype Followed = Followed(hrefs: seq<string>, visited: set<string>)

  /** The link loop every handler shares: each non-empty link not yet in
      `visited_urls` is marked visited and followed, in list order. */
  function FollowNew(visited: set<string>, links: seq<string>): (r: Followed)
    ensures |r.hrefs| <= |links|
    decreases |links|
  {
    if |links| == 0 then Followed([], visited)
    else
      var l := links[0];
      if l != "" && l !in visited then
        var rest := FollowNew(visited + {l}, links[1..]);
        Followed([l] + rest.hrefs, rest.visited)
      else
        FollowNew(visited, links[1..])
  }

  /** Following links follows fresh ones only, each once, and marks exactly
      those visited. */
  lemma {:induction false} FollowNewFresh(visited: set<string>, links: seq<string>)
    ensures FollowsFresh(visited, FollowNew(visited, links).hrefs, FollowNew(visited, links).visited)
    decreases |links|
  {
    if |links| > 0 {
      var l := links[0];
      if l != "" && l !in visited {
        FollowNewFresh(visited + {l}, links[1..]);
        var rest := FollowNew(visited + {l}, links[1..]);
        FollowsFreshCons(visited, l, rest.hrefs, rest.visited);
      } else {
        FollowNewFresh(visited, links[1..]);
      }
    }
  }

  /** Following a fresh `l` first, then `hs` from `visited + {l}`. */
  lemma FollowsFreshCons(visited: set<string>, l: string, hs: seq<string>, v: set<string>)
    requires l != "" && l !in visited
    requires FollowsFresh(visited + {l}, hs, v)
    ensures FollowsFresh(visited, [l] + hs, v)
  {
    ElemsCons(l, hs);
    var p := [l] + hs;
    forall i, j | 0 <= i < j < |p| ensures p[i] != p[j] {
      assert p[j] == hs[j - 1];
      if i > 0 {
        assert p[i] == hs[i - 1];
      }
    }
  }

  /** Every non-empty link ends up visited. */
  lemma {:induction false} FollowNewMarks(visited: set<string>, links: seq<string>)
    ensures forall i :: 0 <= i < |links| && links[i] != "" ==> links[i] in FollowNew(visited, links).visited
    decreases |links|
  {
    if |links| > 0 {
      var l := links[0];
      var v := if l != "" && l !in visited then visited + {l} else visited;
      FollowNewMarks(v, links[1..]);
      FollowNewGrows(v, links[1..]);
      forall i | 0 < i < |links| ensures links[i] == links[1..][i - 1] {
      }
    }
  }

  /** The visited set only grows. */
  lemma {:induction false} FollowNewGrows(visited: set<string>, links: seq<string>)
    ensures visited <= FollowNew(visited, links).visited
    decreases |links|
  {
    if |links| > 0 {
      var l := links[0];
      var v := if l != "" && l !in visited then visited + {l} else visited;
      FollowNewGrows(v, links[1..]);
    }
  }

  /** Only links are followed. */
  lemma {:induction false} FollowNewFromLinks(visited: set<string>, links: seq<string>)
    ensures forall i :: 0 <= i < |FollowNew(visited, links).hrefs| ==> FollowNew(visited, links).hrefs[i] in links
    decreases |links|
  {
    if |links| > 0 {
      var l := links[0];
      var v := if l != "" && l !in visited then visited + {l} else visited;
      FollowNewFromLinks(v, links[1..]);
      var hs := FollowNew(v, links[1..]).hrefs;
      forall i | 0 <= i < |hs| ensures hs[i] in links {
        assert hs[i] in links[1..];
      }
    }
  }

  lemma ElemsCons(x: string, s: seq<string>)
    ensures Elems([x] + s) == {x} + Elems(s)
  {
    var p := [x] + s;
    forall k | k in Elems(p) ensures k in {x} + Elems(s) {
      var i :| 0 <= i < |p| && k == p[i];
      if i > 0 {
        assert p[i] == s[i - 1];
      }
    }
    forall k | k in Elems(s) ensures k in Elems(p) {
      var i :| 0 <= i < |s| && k == s[i];
      assert p[i + 1] == s[i];
    }
    assert p[0] == x;
  }

  lemma ElemsAppend(a: seq<string>, b: seq<string>)
    ensures Elems(a + b) == Elems(a) + Elems(b)
  {
    var p := a + b;
    forall k | k in Elems(p) ensures k in Elems(a) + Elems(b) {
      var i :| 0 <= i < |p| && k == p[i];
      if i >= |a| {
        assert p[i] == b[i - |a|];
      }
    }
    forall k | k in Elems(b) ensures k in Elems(p) {
      var i :| 0 <= i < |b| && k == b[i];
      assert p[|a| + i] == b[i];
    }
    forall k | k in Elems(a) ensures k in Elems(p) {
      var i :| 0 <= i < |a| && k == a[i];
      assert p[i] == a[i];
    }
  }

  /** Two rounds of following, the second starting where the first ended,
      together follow fresh links. */
  lemma FollowsFreshChain(v0: set<string>, a: seq<string>, v1: set<string>, b: seq<string>, v2: set<string>)
    requires FollowsFresh(v0, a, v1) && FollowsFresh(v1, b, v2)
    ensures FollowsFresh(v0, a + b, v2)
  {
    ElemsAppend(a, b);
    var p := a + b;
    forall i, j | 0 <= i < j < |p| ensures p[i] != p[j] {
      if j >= |a| && i < |a| {
        assert p[i] == a[i] && a[i] in Elems(a);
        assert p[j] == b[j - |a|];
      }
    }
  }

  /** The reference for the order of following: the non-empty links that are
      neither visited nor repeated from earlier in the list, in the order
      they occur, built from the end of the list. */
  function FirstOccurrences(visited: set<string>, links: seq<string>): seq<string>
    decreases |links|
  {
    if |links| == 0 then []
    else
      var init := links[..|links| - 1];
      var l := links[|links| - 1];
      FirstOccurrences(visited, init) + (if l != "" && l !in visited && l !in init then [l] else [])
  }

  /** Following over a concatenation is following over the first part, then
      over the second from where the first ended. */
  lemma {:induction false} FollowNewAppend(visited: set<string>, a: seq<string>, b: seq<string>)
    ensures FollowNew(visited, a + b).hrefs
         == FollowNew(visited, a).hrefs + FollowNew(FollowNew(visited, a).visited, b).hrefs
    ensures FollowNew(visited, a + b).visited == FollowNew(FollowNew(visited, a).visited, b).visited
    decreases |a|
  {
    if |a| == 0 {
      assert a + b == b;
    } else {
      assert (a + b)[0] == a[0];
      assert (a + b)[1..] == a[1..] + b;
      var l := a[0];
      if l != "" && l !in visited {
        FollowNewAppend(visited + {l}, a[1..], b);
      } else {
        FollowNewAppend(visited, a[1..], b);
      }
    }
  }

  /** The visited set after following: the old one and every non-empty
      link. */
  lemma FollowNewVisited(visited: set<string>, links: seq<string>)
    ensures FollowNew(visited, links).visited == visited + (Elems(links) - {""})
  {
    var r := FollowNew(visited, links);
    FollowNewFresh(visited, links);
    FollowNewMarks(visited, links);
    FollowNewFromLinks(visited, links);
    forall k | k in r.visited ensures k in visited + (Elems(links) - {""}) {
      if k !in visited {
        var i :| 0 <= i < |r.hrefs| && k == r.hrefs[i];
        assert k in links;
      }
    }
  }

  /** Links are followed in the order they are discovered: the followed
      hrefs are the first occurrences of the new non-empty links. */
  lemma {:induction false} FollowNewInDiscoveryOrder(visited: set<string>, links: seq<string>)
    ensures FollowNew(visited, links).hrefs == FirstOccurrences(visited, links)
    decreases |links|
  {
    if |links| > 0 {
      var init := links[..|links| - 1];
      var l := links[|links| - 1];
      assert links == init + [l];
      FollowNewAppend(visited, init, [l]);
      FollowNewInDiscoveryOrder(visited, init);
      var v := FollowNew(visited, init).visited;
      FollowNewVisited(visited, init);
      assert l in v <==> l in visited || (l in init && l != "") by {
        assert l in init <==> l in Elems(init);
      }
      assert [l][1..] == [];
    }
  }

  /** Following, against the two reference descriptions: the first
      occurrences of the new links, and the visited set grown by every
      non-empty link; the followed links are fresh. */
  lemma FollowNewSpec(visited: set<string>, links: seq<string>)
    ensures FollowNew(visited, links) == Followed(FirstOccurrences(visited, links), visited + (Elems(links) - {""}))
    ensures FollowsFresh(visited, FirstOccurrences(visited, links), visited + (Elems(links) - {""}))
  {
    FollowNewInDiscoveryOrder(visited, links);
    FollowNewVisited(visited, links);
    FollowNewFresh(visited, links);
  }

  /** Two rounds of following, the second against the visited set the first
      leaves. */
  lemma FollowTwice(visited: set<string>, a: seq<string>, b: seq<string>)
    ensures var f1 := FollowNew(visited, a);
      var f2 := FollowNew(f1.visited, b);
      && f1.hrefs == FirstOccurrences(visited, a)
      && f2.hrefs == FirstOccurrences(visited + (Elems(a) - {""}), b)
      && FollowsFresh(visited, f1.hrefs + f2.hrefs, f2.visited)
  {
    var f1 := FollowNew(visited, a);
    FollowNewSpec(visited, a);
    FollowNewSpec(f1.visited, b);
    var f2 := FollowNew(f1.visited, b);
    FollowsFreshChain(visited, f1.hrefs, f1.visited, f2.hrefs, f2.visited);
  }

  // ---------------------------------------------------------------------------
  // The three link-following handlers

  const GallerySelector := "div.wikia-gallery-item a.link-internal::attr(href)"
  const CharacterLinkSelector :=
    "div.article-table a::attr(href), table.sortable a::attr(href), div.character-grid a::attr(href)"
  const CategoryLinkSelector := "a[href*=\"Category:Characters\"]::attr(href)"
  const MemberSelector := "div.category-page__members a::attr(href)"
  /** The keywords that send a gallery link to the list handler. */
  const ListKeywords := ["/champion", "/character", "/heroes"]

  /** A gallery link goes to the list handler when its lower-cased form
      names a champion, character or heroes page, and back to `parse`
      otherwise. */
  function RouteGallery(link: string): (h: Handler)
    ensures h == ParseCharacterList || h == Parse
    ensures h == ParseCharacterList <==> exists i :: 0 <= i < 3 && Contains(Lower(link), ListKeywords[i])
  {
    var l := Lower(link);
    if Contains(l, ListKeywords[0]) || Contains(l, ListKeywords[1]) || Contains(l, ListKeywords[2])
    then ParseCharacterList else Parse
  }

  /** The keyword test looks at the lower-cased link, so the case of the link
      does not change its route. */
  lemma RouteGalleryIgnoresCase(link: string)
    ensures RouteGallery(Lower(link)) == RouteGallery(link)
  {
    LowerIdempotent(link);
  }

  /** A link with a keyword in it, in any case, goes to the list handler. */
  lemma RouteGalleryKeyword(a: string, k: string, b: string)
    requires Lower(k) in ListKeywords
    ensures RouteGallery(a + k + b) == ParseCharacterList
  {
    LowerAppend(a + k, b);
    LowerAppend(a, k);
    var l := Lower(a) + Lower(k) + Lower(b);
    assert l[|Lower(a)|..] == Lower(k) + Lower(b);
    ContainsAt(l, Lower(k), |Lower(a)|);
  }

  function HrefsOf(reqs: seq<Request>): (r: seq<string>)
    ensures |r| == |reqs| && forall i :: 0 <= i < |reqs| ==> r[i] == reqs[i].href
  {
    seq(|reqs|, i requires 0 <= i < |reqs| => reqs[i].href)
  }

  /** What one handler call emits and the visited set it leaves. */
  datatype Crawled = Crawled(requests: seq<Request>, visited: set<string>)

  /** `parse`: the hub page. */
  function ParseHub(p: Page, visited: set<string>): (r: Crawled)
    ensures FollowsFresh(visited, HrefsOf(r.requests), r.visited)
    ensures HrefsOf(r.requests) == FirstOccurrences(visited, GetAll(p, GallerySelector))
    ensures forall i :: 0 <= i < |r.requests| ==> r.requests[i].callback == RouteGallery(r.requests[i].href)
  {
    var f := FollowNew(visited, GetAll(p, GallerySelector));
    FollowNewSpec(visited, GetAll(p, GallerySelector));
    var reqs := seq(|f.hrefs|, i requires 0 <= i < |f.hrefs| => Request(f.hrefs[i], RouteGallery(f.hrefs[i])));
    assert HrefsOf(reqs) == f.hrefs;
    Crawled(reqs, f.visited)
  }

  /** Every href sent to one handler. */
  function Send(hrefs: seq<string>, h: Handler): (r: seq<Request>)
    ensures HrefsOf(r) == hrefs
    ensures forall i :: 0 <= i < |r| ==> r[i].callback == h
  {
    seq(|hrefs|, i requires 0 <= i < |hrefs| => Request(hrefs[i], h))
  }

  /** `parse_character_list`: character links first, then category links,
      against one visited set. */
  function ParseList(p: Page, visited: set<string>): (r: Crawled)
    ensures FollowsFresh(visited, HrefsOf(r.requests), r.visited)
    ensures var chars := GetAll(p, CharacterLinkSelector);
      HrefsOf(r.requests)
        == FirstOccurrences(visited, chars)
         + FirstOccurrences(visited + (Elems(chars) - {""}), GetAll(p, CategoryLinkSelector))
    ensures forall i :: 0 <= i < |r.requests| ==>
      r.requests[i].callback == (if i < |FirstOccurrences(visited, GetAll(p, CharacterLinkSelector))|
                                 then ParseCharacter else ParseCategory)
  {
    var f1 := FollowNew(visited, GetAll(p, CharacterLinkSelector));
    var f2 := FollowNew(f1.visited, GetAll(p, CategoryLinkSelector));
    FollowTwice(visited, GetAll(p, CharacterLinkSelector), GetAll(p, CategoryLinkSelector));
    var reqs := Send(f1.hrefs, ParseCharacter) + Send(f2.hrefs, ParseCategory);
    SendAppend(f1.hrefs, ParseCharacter, f2.hrefs, ParseCategory);
    Crawled(reqs, f2.visited)
  }

  lemma SendAppend(a: seq<string>, h: Handler, b: seq<string>, g: Handler)
    ensures HrefsOf(Send(a, h) + Send(b, g)) == a + b
    ensures forall i :: 0 <= i < |a| + |b| ==>
      (Send(a, h) + Send(b, g))[i].callback == if i < |a| then h else g
  {
    var r := Send(a, h) + Send(b, g);
    assert HrefsOf(r) == HrefsOf(Send(a, h)) + HrefsOf(Send(b, g));
  }

  /** `parse_category`: every new member goes to `parse_character`. */
  function ParseCategoryPage(p: Page, visited: set<string>): (r: Crawled)
    ensures FollowsFresh(visited, HrefsOf(r.requests), r.visited)
    ensures HrefsOf(r.requests) == FirstOccurrences(visited, GetAll(p, MemberSelector))
    ensures forall i :: 0 <= i < |r.requests| ==> r.requests[i].callback == ParseCharacter
  {
    var f := FollowNew(visited, GetAll(p, MemberSelector));
    FollowNewSpec(visited, GetAll(p, MemberSelector));
    Crawled(Send(f.hrefs, ParseCharacter), f.visited)
  }

  // ---------------------------------------------------------------------------
  // parse_character

  const TitleSelector := "h1.page-header__title::text"
  const HeadingSelector := "h1::text"

  /** `css(title).get() or css('h1::text').get()`. */
  function RawName(p: Page): (r: Option<string>)
    ensures Truthy(r) <==> Truthy(Get(p, TitleSelector)) || Truthy(Get(p, HeadingSelector))
    ensures Truthy(Get(p, TitleSelector)) ==> r == Get(p, TitleSelector)
    ensures !Truthy(Get(p, TitleSelector)) ==> r == Get(p, HeadingSelector)
  {
    var t := Get(p, TitleSelector);
    if Truthy(t) then t else Get(p, HeadingSelector)
  }

  /** `name.split('(')[0].strip()`. */
  function BaseName(name: string): (r: string)
    ensures '(' !in r && NoSpaceAtEnds(r)
    ensures '(' !in name ==> r == Strip(name)
  {
    var c := CutAt(name, "(");
    ContainsChar(c, '(');
    assert '(' !in name ==> c == name by {
      ContainsChar(name, '(');
      if '(' !in name {
        CutAtAbsent(name, "(");
      }
    }
    var r := Strip(c);
    StripIsInside(c, r);
    r
  }

  /** The base name is the text in front of the first `(`, without the
      whitespace around it. */
  lemma BaseNameOf(name: string, v: string, x: string, w: string, y: string)
    requires name == v + x + w + "(" + y
    requires AllSpace(v) && AllSpace(w) && NoSpaceAtEnds(x) && '(' !in x
    ensures BaseName(name) == x
  {
    assert '(' !in v + x + w by {
      assert !IsSpace('(');
    }
    var a := v + x + w;
    assert name == a + ("(" + y);
    CutAtCharSkip(a, "(" + y, '(');
    assert CutAt("(" + y, "(") == [];
    assert CutAt(name, "(") == a;
    StripOfPadded(v, x, w);
  }

  lemma StripIsInside(c: string, r: string)
    requires r == Strip(c) && '(' !in c
    ensures '(' !in r
  {
    var i := StripRemovesSpace(c);
    assert r == c[i..i + |r|];
  }

  /** The seven image selectors, in the order they are tried. */
  function ImageSelectors(base: string): (r: seq<string>)
    ensures |r| == 7
  {
    [ "img[alt*=\"" + base + " Render\"]::attr(src)",
      "img[alt*=\"" + base + " Portrait\"]::attr(src)",
      "figure.pi-image img::attr(src)",
      ".infobox-image img::attr(src)",
      ".champion-image img::attr(src)",
      ".character-image img::attr(src)",
      "aside.portable-infobox img::attr(src)" ]
  }

  /** A selector stops the search: its first `src` is non-empty and so is
      that `src` once cleaned. */
  predicate YieldsImage(p: Page, sel: string) {
    Truthy(Get(p, sel)) && Truthy(CleanImageUrl(Get(p, sel)))
  }

  /** The position of the first selector that stops the search, or the
      length of the list when none does. */
  function FirstImageIndex(p: Page, sels: seq<string>): (k: nat)
    ensures k <= |sels|
  {
    FirstTrue(Yields(p, sels))
  }

  /** Which selectors stop the search. */
  function Yields(p: Page, sels: seq<string>): (bs: seq<bool>)
    ensures |bs| == |sels|
  {
    seq(|sels|, j requires 0 <= j < |sels| => YieldsImage(p, sels[j]))
  }

  /** The first selector that stops the search is at `FirstImageIndex`. */
  lemma FirstImageIndexSpec(p: Page, sels: seq<string>)
    ensures var k := FirstImageIndex(p, sels);
      && (forall j :: 0 <= j < k ==> !YieldsImage(p, sels[j]))
      && (k < |sels| ==> YieldsImage(p, sels[k]))
  {
    var bs := Yields(p, sels);
    assert forall j :: 0 <= j < |sels| ==> bs[j] == YieldsImage(p, sels[j]);
  }

  /** The position of the first `true`, or the length when there is none. */
  function FirstTrue(bs: seq<bool>): (k: nat)
    ensures k <= |bs|
    ensures forall j :: 0 <= j < k ==> !bs[j]
    ensures k < |bs| ==> bs[k]
    decreases |bs|
  {
    if |bs| == 0 || bs[0] then 0 else 1 + FirstTrue(bs[1..])
  }

  /** The stripped name `parse_character` uses, when the heading is
      truthy. */
  function PageName(p: Page): (r: Option<string>)
    ensures r.Some? <==> Truthy(RawName(p))
    ensures r.Some? ==> r.value == Strip(RawName(p).value) && NoSpaceAtEnds(r.value)
  {
    var raw := RawName(p);
    if Truthy(raw) then Some(Strip(raw.value)) else None
  }

  /** The cleaned image of the first selector that gives one, if any. */
  function FirstImage(p: Page, sels: seq<string>): (r: Option<string>)
    ensures r.Some? <==> exists j :: 0 <= j < |sels| && YieldsImage(p, sels[j])
    ensures r.Some? ==> var k := FirstImageIndex(p, sels);
      k < |sels| && r == CleanImageUrl(Get(p, sels[k])) && r.value != ""
  {
    var k := FirstImageIndex(p, sels);
    FirstImageIndexSpec(p, sels);
    if k < |sels| then CleanImageUrl(Get(p, sels[k])) else None
  }

  /** `parse_character`: at most one item, built from the first selector
      that gives a usable image. */
  function ParseCharacterPage(p: Page): (r: Option<Item>)
    ensures r.Some? <==>
      IsCharacterPage(p) && PageName(p).Some? && FirstImage(p, ImageSelectors(BaseName(PageName(p).value))).Some?
    ensures r.Some? ==>
      r.value == Item(PageName(p), Some(p.url), FirstImage(p, ImageSelectors(BaseName(PageName(p).value))))
  {
    if !IsCharacterPage(p) then None
    else
      var name := PageName(p);
      if name.None? then None
      else
        var img := FirstImage(p, ImageSelectors(BaseName(name.value)));
        if img.None? then None else Some(Item(name, Some(p.url), img))
  }

  /** The name is tested before it is stripped, so a heading of whitespace
      only yields an item with an empty name. */
  lemma WhitespaceHeadingGivesEmptyName(p: Page)
    requires Truthy(RawName(p)) && AllSpace(RawName(p).value)
    ensures PageName(p) == Some("")
    ensures ParseCharacterPage(p).Some? ==> ParseCharacterPage(p).value.name == Some("")
  {
    StripAllSpace(RawName(p).value);
  }

  // ---------------------------------------------------------------------------
  // A crawl

  /** One response handled by one callback. */
  datatype Visit = Visit(handler: Handler, page: Page)

  /** The spider's own state: `visited_urls` and `character_count`. */
  datatype SpiderState = SpiderState(visited: set<string>, count: nat)

  datatype Handled = Handled(requests: seq<Request>, items: seq<Item>, state: SpiderState)

  /** The three handlers that only follow links. */
  function FollowLinks(h: Handler, p: Page, visited: set<string>): (r: Crawled)
    requires h != ParseCharacter
    ensures FollowsFresh(visited, HrefsOf(r.requests), r.visited)
  {
    match h
    case Parse => ParseHub(p, visited)
    case ParseCharacterList => ParseList(p, visited)
    case ParseCategory => ParseCategoryPage(p, visited)
  }

  lemma NothingFollowed(visited: set<string>)
    ensures FollowsFresh(visited, HrefsOf([]), visited)
  {
    assert Elems([]) == {};
  }

  /** One response, dispatched on the request's callback. */
  function Handle(v: Visit, st: SpiderState): (r: Handled)
    ensures FollowsFresh(st.visited, HrefsOf(r.requests), r.state.visited)
    ensures |r.items| <= 1 && r.state.count == st.count + |r.items|
  {
    if v.handler != ParseCharacter then
      var c := FollowLinks(v.handler, v.page, st.visited);
      Handled(c.requests, [], SpiderState(c.visited, st.count))
    else
      NothingFollowed(st.visited);
      Yield(ParseCharacterPage(v.page), st)
  }

  /** `parse_character` follows nothing and counts the item it yields. */
  function Yield(o: Option<Item>, st: SpiderState): (r: Handled)
    ensures r.requests == [] && r.state.visited == st.visited
    ensures r.items == (if o.Some? then [o.value] else [])
    ensures r.state.count == st.count + |r.items|
  {
    if o.Some? then Handled([], [o.value], SpiderState(st.visited, st.count + 1))
    else Handled([], [], st)
  }

  lemma HrefsAppend(a: seq<Request>, b: seq<Request>)
    ensures HrefsOf(a + b) == HrefsOf(a) + HrefsOf(b)
  {
  }

  datatype Trace = Trace(requests: seq<Request>, items: seq<Item>, state: SpiderState)

  /** A crawl: responses handled one after the other, in whatever order the
      scheduler delivers them. Over the whole crawl no href is followed
      twice, none that was visited before, none that is empty; the visited
      set grows by exactly the followed hrefs, and the count by exactly the
      items yielded. */
  function Crawl(visits: seq<Visit>, st: SpiderState): (r: Trace)
    ensures FollowsFresh(st.visited, HrefsOf(r.requests), r.state.visited)
    ensures r.state.count == st.count + |r.items|
    ensures |r.items| <= |visits|
    decreases |visits|
  {
    if |visits| == 0 then
      assert Elems([]) == {};
      Trace([], [], st)
    else
      var h := Handle(visits[0], st);
      var rest := Crawl(visits[1..], h.state);
      HrefsAppend(h.requests, rest.requests);
      FollowsFreshChain(st.visited, HrefsOf(h.requests), h.state.visited,
        HrefsOf(rest.requests), rest.state.visited);
      Trace(h.requests + rest.requests, h.items + rest.items, rest.state)
  }
}
