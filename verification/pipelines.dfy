/** The item pipelines of scraper/scraper/pipelines.py and their composition
    in the order fixed by `ITEM_PIPELINES` (scraper/scraper/settings.py):
    Validation, Cleaning, image acceptance, de-duplication. Every stage is a
    pure function from an item and the stage's own state to an outcome and a
    new state; raising `DropItem` is the `Drop` outcome. */
module Pipelines {
  import opened Wrappers
  import opened Strings
  import opened Items
  import opened ImageUrl

  /** Why an item was dropped: one reason per `raise DropItem`. */
  datatype Reason =
    | Incomplete             // name or url missing or empty
    | InvalidUrl             // url is not http(s)
    | NoImage                // image_url missing or empty
    | InvalidImageUrl        // image_url is not http(s)
    | UnknownImageFormat     // neither a known extension nor a Fandom image path
    | PreviouslyInvalidImage // the cache remembers the image as invalid
    | Duplicate              // the name::url key was seen before

  datatype Outcome = Drop(reason: Reason) | Pass(item: Item)

  /** What a stage returns: its outcome and its state afterwards. */
  datatype Step<S> = Step(outcome: Outcome, state: S)

  /** The state of the stages that keep one: the image-validation cache and
      the set of keys seen by the duplicates filter. */
  datatype State = State(cache: map<string, bool>, seen: set<string>)

  // ---------------------------------------------------------------------------
  // ValidationPipeline

  function Validate(it: Item): (r: Outcome)
    ensures r.Pass? <==> Truthy(it.name) && Truthy(it.url) && HasHttpScheme(it.url.value)
    ensures r.Pass? ==> r.item == it
    ensures r == Drop(Incomplete) <==> !Truthy(it.name) || !Truthy(it.url)
  {
    if !Truthy(it.name) || !Truthy(it.url) then Drop(Incomplete)
    else if !HasHttpScheme(it.url.value) then Drop(InvalidUrl)
    else Pass(it)
  }

  // ---------------------------------------------------------------------------
  // CleaningPipeline

  /** The suffix `\s*\(Character\)\s*$` removes, without its whitespace. */
  const CharacterSuffix := "(Character)"

  /** A trailing `suffix` goes, together with the whitespace run in front of
      it; anything else stays. */
  function DropSuffix(s: string, suffix: string): (r: string)
    requires NoSpaceAtEnds(s)
    ensures if EndsWith(s, suffix)
      then r <= s && |r| + |suffix| <= |s| && AllSpace(s[|r|..|s| - |suffix|])
      else r == s
    ensures NoSpaceAtEnds(r)
  {
    if EndsWith(s, suffix) then
      var r := TrimRight(s[..|s| - |suffix|]);
      TrimRightOfPrefix(s, |s| - |suffix|, r);
      r
    else s
  }

  /** What `rstrip` leaves of a prefix of a string without whitespace at its
      ends is a prefix of it that still has none, and only whitespace lies
      between the two. */
  lemma TrimRightOfPrefix(s: string, k: nat, r: string)
    requires k <= |s| && r == TrimRight(s[..k])
    requires NoSpaceAtEnds(s)
    ensures r <= s && |r| <= k && AllSpace(s[|r|..k])
    ensures NoSpaceAtEnds(r)
  {
    var t := s[..k];
    assert s[|r|..k] == t[|r|..];
    if r != [] {
      assert r[0] == s[0];
    }
  }

  /** `character_suffix.sub('', name.strip())`. The name is stripped first, so
      the trailing `\s*` matches nothing; a match must end at the end of the
      string, so at most the one final `(Character)` goes, together with the
      whitespace run in front of it. */
  function CleanName(n: string): (r: string)
    ensures var s := Strip(n);
      if EndsWith(s, CharacterSuffix)
      then r <= s && |r| + |CharacterSuffix| <= |s| && AllSpace(s[|r|..|s| - |CharacterSuffix|])
      else r == s
    ensures NoSpaceAtEnds(r)
  {
    DropSuffix(Strip(n), CharacterSuffix)
  }

  /** `url_params.sub('', url)`: everything from the first `?` on goes. */
  function CleanUrl(u: string): (r: string)
    ensures r <= u && '?' !in r
    ensures |r| < |u| ==> u[|r|] == '?'
  {
    var r := CutAt(u, "?");
    ContainsChar(r, '?');
    r
  }

  /** `CleaningPipeline.process_item`: each truthy field is cleaned, the
      others are left as they are; this stage never drops. */
  function Clean(it: Item): (r: Item)
    ensures Truthy(it.name) ==> r.name == Some(CleanName(it.name.value))
    ensures !Truthy(it.name) ==> r.name == it.name
    ensures Truthy(it.url) ==> r.url == Some(CleanUrl(it.url.value))
    ensures !Truthy(it.url) ==> r.url == it.url
    ensures Truthy(it.imageUrl) ==> r.imageUrl == CleanImageUrl(it.imageUrl)
    ensures !Truthy(it.imageUrl) ==> r.imageUrl == it.imageUrl
  {
    Item(
      if Truthy(it.name) then Some(CleanName(it.name.value)) else it.name,
      if Truthy(it.url) then Some(CleanUrl(it.url.value)) else it.url,
      if Truthy(it.imageUrl) then CleanImageUrl(it.imageUrl) else it.imageUrl)
  }

  // ---------------------------------------------------------------------------
  // OptimizedImagePipeline

  /** `image_pattern.search(u)` for `\.(jpg|jpeg|png|gif)$` under `re.I`. */
  predicate HasImageExtension(u: string) {
    var l := Lower(u);
    EndsWith(l, ".jpg") || EndsWith(l, ".jpeg") || EndsWith(l, ".png") || EndsWith(l, ".gif")
  }

  /** The Fandom image paths accepted without an extension. */
  predicate HasImagePath(u: string) {
    var l := Lower(u);
    Contains(l, "/render") || Contains(l, "/portrait") || Contains(l, "/image")
  }

  /** The checks made before the cache is consulted. */
  predicate AcceptableImage(o: Option<string>) {
    Truthy(o) && HasHttpScheme(o.value) && (HasImageExtension(o.value) || HasImagePath(o.value))
  }

  /** Both format checks look at the lower-cased URL, so the case of the
      URL does not matter to them. */
  lemma ImageChecksIgnoreCase(u: string)
    ensures HasImageExtension(Lower(u)) == HasImageExtension(u)
    ensures HasImagePath(Lower(u)) == HasImagePath(u)
  {
    LowerIdempotent(u);
  }

  /** Any text that ends in one of the four extensions, in any case, has an
      image extension. */
  lemma ImageExtensionOf(a: string, e: string)
    requires Lower(e) in [".jpg", ".jpeg", ".png", ".gif"]
    ensures HasImageExtension(a + e)
  {
    LowerAppend(a, e);
    var l := Lower(a) + Lower(e);
    assert l[|l| - |Lower(e)|..] == Lower(e);
  }

  /** Any text with one of the three Fandom path markers in it, in any case,
      has an image path. */
  lemma ImagePathOf(a: string, k: string, b: string)
    requires Lower(k) in ["/render", "/portrait", "/image"]
    ensures HasImagePath(a + k + b)
  {
    LowerAppend(a + k, b);
    LowerAppend(a, k);
    var l := Lower(a) + Lower(k) + Lower(b);
    assert l[|Lower(a)|..] == Lower(k) + Lower(b);
    ContainsAt(l, Lower(k), |Lower(a)|);
  }

  /** Every cached verdict is `True`. */
  predicate AllValid(cache: map<string, bool>) {
    forall k :: k in cache ==> cache[k]
  }

  function ImageStage(it: Item, cache: map<string, bool>): (r: Step<map<string, bool>>)
    ensures r.outcome.Pass? ==> r.outcome.item == it
    ensures r.outcome.Pass? <==>
      AcceptableImage(it.imageUrl) && (it.imageUrl.value in cache ==> cache[it.imageUrl.value])
    ensures r.outcome == Drop(NoImage) <==> !Truthy(it.imageUrl)
    ensures r.outcome.Pass? ==> it.imageUrl.value in r.state && r.state[it.imageUrl.value]
    ensures r.outcome.Drop? ==> r.state == cache
    ensures r.state == cache
         || (r.outcome.Pass? && it.imageUrl.value !in cache && r.state == cache[it.imageUrl.value := true])
  {
    if !Truthy(it.imageUrl) then Step(Drop(NoImage), cache)
    else
      var u := it.imageUrl.value;
      if !HasHttpScheme(u) then Step(Drop(InvalidImageUrl), cache)
      else if !HasImageExtension(u) && !HasImagePath(u) then Step(Drop(UnknownImageFormat), cache)
      else if u in cache then
        if !cache[u] then Step(Drop(PreviouslyInvalidImage), cache) else Step(Pass(it), cache)
      else Step(Pass(it), cache[u := true])
  }

  /** The cache only ever receives `True`, so a cache that starts that way
      stays that way and the "previously invalid" drop never happens. */
  lemma ImageCacheStaysValid(it: Item, cache: map<string, bool>)
    requires AllValid(cache)
    ensures AllValid(ImageStage(it, cache).state)
    ensures ImageStage(it, cache).outcome != Drop(PreviouslyInvalidImage)
    ensures ImageStage(it, cache).outcome.Pass? <==> AcceptableImage(it.imageUrl)
  {
  }

  // ---------------------------------------------------------------------------
  // DuplicatesPipeline

  /** How an f-string renders a field: a field set to `None` renders as
      "None". */
  function KeyText(o: Option<string>): string {
    match o
    case Some(s) => s
    case None => "None"
  }

  /** `f"{name}::{url}"`. */
  function Key(it: Item): string {
    KeyText(it.name) + "::" + KeyText(it.url)
  }

  function Dedup(it: Item, seen: set<string>): (r: Step<set<string>>)
    ensures r.outcome.Pass? <==> Key(it) !in seen
    ensures r.outcome.Pass? ==> r.outcome.item == it
    ensures r.outcome.Drop? ==> r.outcome.reason == Duplicate
    ensures r.state == seen + {Key(it)}
  {
    if Key(it) in seen then Step(Drop(Duplicate), seen) else Step(Pass(it), seen + {Key(it)})
  }

  // ---------------------------------------------------------------------------
  // The four stages in order

  /** One item through Validation, Cleaning, image acceptance and
      de-duplication; the first `Drop` ends its journey. */
  function ProcessItem(it: Item, st: State): (r: Step<State>)
    ensures r.outcome.Pass? <==>
      && Validate(it).Pass?
      && ImageStage(Clean(it), st.cache).outcome.Pass?
      && Key(Clean(it)) !in st.seen
    ensures r.outcome.Pass? ==> r.outcome.item == Clean(it) && Key(r.outcome.item) !in st.seen
    ensures r.state.seen == if r.outcome.Pass? then st.seen + {Key(r.outcome.item)} else st.seen
    ensures r.state.cache == if Validate(it).Pass? then ImageStage(Clean(it), st.cache).state else st.cache
  {
    var v := Validate(it);
    if v.Drop? then Step(v, st)
    else
      var c := Clean(it);
      var img := ImageStage(c, st.cache);
      if img.outcome.Drop? then Step(img.outcome, State(img.state, st.seen))
      else
        var d := Dedup(c, st.seen);
        Step(d.outcome, State(img.state, if d.outcome.Pass? then d.state else st.seen))
  }

  /** What an emitted item carries: a validated name and url, a url without
      query that kept its scheme, and an acceptable image the cache now
      knows. The cache only grows, and a cache of valid verdicts stays one,
      so the "previously invalid" drop never happens. */
  lemma ProcessItemFacts(it: Item, st: State)
    ensures var r := ProcessItem(it, st);
      && (r.outcome.Pass? ==>
            && Truthy(it.name) && Truthy(it.url)
            && HasHttpScheme(r.outcome.item.url.value) && '?' !in r.outcome.item.url.value
            && AcceptableImage(r.outcome.item.imageUrl)
            && r.outcome.item.imageUrl.value in r.state.cache)
      && r.state.cache.Keys >= st.cache.Keys
      && (AllValid(st.cache) ==> AllValid(r.state.cache) && r.outcome != Drop(PreviouslyInvalidImage))
  {
    if Validate(it).Pass? {
      CleanKeepsScheme(it.url.value);
      if AllValid(st.cache) {
        ImageCacheStaysValid(Clean(it), st.cache);
      }
    }
  }

  /** Cleaning the url keeps the scheme Validation established. */
  lemma CleanKeepsScheme(u: string)
    requires HasHttpScheme(u)
    ensures HasHttpScheme(CleanUrl(u))
  {
    if StartsWith(u, "http://") {
      CutAtCharKeepsPrefix(u, "http://", '?');
    } else {
      CutAtCharKeepsPrefix(u, "https://", '?');
    }
  }

  /** The keys of a sequence of items. */
  function Keys(items: seq<Item>): set<string> {
    set i | 0 <= i < |items| :: Key(items[i])
  }

  lemma KeysCons(x: Item, rest: seq<Item>)
    ensures Keys([x] + rest) == {Key(x)} + Keys(rest)
  {
    var p := [x] + rest;
    forall k | k in Keys(p) ensures k in {Key(x)} + Keys(rest) {
      var i :| 0 <= i < |p| && k == Key(p[i]);
      if i > 0 {
        assert p[i] == rest[i - 1];
      }
    }
    forall k | k in Keys(rest) ensures k in Keys(p) {
      var i :| 0 <= i < |rest| && k == Key(rest[i]);
      assert p[i + 1] == rest[i];
    }
    assert p[0] == x;
  }

  /** What a run over a sequence of items emits, and the state it leaves. */
  datatype Run = Run(passed: seq<Item>, state: State)

  /** No two items share a key. */
  predicate DistinctKeys(p: seq<Item>) {
    forall i, j :: 0 <= i < j < |p| ==> Key(p[i]) != Key(p[j])
  }

  /** No item has a key in `seen`. */
  predicate KeysAvoid(p: seq<Item>, seen: set<string>) {
    forall i :: 0 <= i < |p| ==> Key(p[i]) !in seen
  }

  /** Putting an item with a fresh key in front of a run emitted after it. */
  lemma ConsFreshKey(x: Item, rest: seq<Item>, seen: set<string>)
    requires Key(x) !in seen
    requires DistinctKeys(rest) && KeysAvoid(rest, seen + {Key(x)})
    ensures DistinctKeys([x] + rest) && KeysAvoid([x] + rest, seen)
    ensures Keys([x] + rest) == {Key(x)} + Keys(rest)
  {
    var p := [x] + rest;
    forall i, j | 0 <= i < j < |p|
      ensures Key(p[i]) != Key(p[j])
    {
      assert p[j] == rest[j - 1];
      if i > 0 {
        assert p[i] == rest[i - 1];
      }
    }
    KeysCons(x, rest);
  }

  /** The items of one crawl, fed through the pipeline in order. No two
      emitted items share a key, none has a key seen before the run, and the
      filter ends up knowing exactly the old keys and the emitted ones. */
  function RunPipeline(items: seq<Item>, st: State): (r: Run)
    ensures |r.passed| <= |items|
    ensures DistinctKeys(r.passed) && KeysAvoid(r.passed, st.seen)
    ensures r.state.seen == st.seen + Keys(r.passed)
    ensures |items| > 0 && ProcessItem(items[0], st).outcome.Pass? ==>
      r.passed != [] && r.passed[0] == ProcessItem(items[0], st).outcome.item
    ensures |items| == 1 ==> (r.passed != [] <==> ProcessItem(items[0], st).outcome.Pass?)
    decreases |items|
  {
    if |items| == 0 then Run([], st)
    else
      var s := ProcessItem(items[0], st);
      var rest := RunPipeline(items[1..], s.state);
      if s.outcome.Pass? then
        ConsFreshKey(s.outcome.item, rest.passed, st.seen);
        Run([s.outcome.item] + rest.passed, rest.state)
      else rest
  }

  /** Every item has an acceptable image whose URL the cache knows. */
  predicate ImagesKnown(p: seq<Item>, cache: map<string, bool>) {
    forall i :: 0 <= i < |p| ==> AcceptableImage(p[i].imageUrl) && p[i].imageUrl.value in cache
  }

  /** A known first image stays known once the cache has grown. */
  lemma ConsKnownImage(x: Item, rest: seq<Item>, cache: map<string, bool>)
    requires AcceptableImage(x.imageUrl) && x.imageUrl.value in cache
    requires ImagesKnown(rest, cache)
    ensures ImagesKnown([x] + rest, cache)
  {
    var p := [x] + rest;
    forall i | 0 <= i < |p|
      ensures AcceptableImage(p[i].imageUrl) && p[i].imageUrl.value in cache
    {
      if i > 0 {
        assert p[i] == rest[i - 1];
      }
    }
  }

  /** Every emitted item has an acceptable image that the cache knows, and a
      cache of valid verdicts stays one. */
  lemma {:induction false} RunImages(items: seq<Item>, st: State)
    ensures var r := RunPipeline(items, st);
      && ImagesKnown(r.passed, r.state.cache)
      && r.state.cache.Keys >= st.cache.Keys
      && (AllValid(st.cache) ==> AllValid(r.state.cache))
    decreases |items|
  {
    if |items| > 0 {
      var s := ProcessItem(items[0], st);
      ProcessItemFacts(items[0], st);
      RunImages(items[1..], s.state);
      var rest := RunPipeline(items[1..], s.state);
      if s.outcome.Pass? {
        ConsKnownImage(s.outcome.item, rest.passed, rest.state.cache);
      }
    }
  }

  // ---------------------------------------------------------------------------
  // Consequences of the stage order and of the individual stages

  /** An item without an image is dropped by the image stage and leaves the
      whole state, and so the duplicates filter, as it found it. */
  lemma NoImageLeavesState(it: Item, st: State)
    requires !Truthy(it.imageUrl)
    ensures ProcessItem(it, st).outcome.Drop?
    ensures ProcessItem(it, st).state == st
  {
  }

  /** An image URL that cleaning reduces to "" is dropped the same way. */
  lemma VanishingImageLeavesState(it: Item, st: State)
    requires Truthy(it.imageUrl) && CleanStr(it.imageUrl.value) == ""
    ensures ProcessItem(it, st).outcome.Drop?
    ensures ProcessItem(it, st).state == st
  {
  }

  /** Dropping a suffix removes it together with the whitespace before it,
      and keeps everything in front of it. */
  lemma DropSuffixOf(n: string, x: string, w: string, c: string)
    requires n == x + w + c && c != []
    requires NoSpaceAtEnds(x) && NoSpaceAtEnds(c)
    requires AllSpace(w) && (x == [] ==> w == [])
    ensures NoSpaceAtEnds(n) && Strip(n) == n && DropSuffix(n, c) == x
  {
    assert n[|n| - 1] == c[|c| - 1];
    assert n[0] == if x == [] then c[0] else x[0];
    StripTrimmed(n);
    ConcatSlices(x + w, c);
    TrimRightOf(x, w);
  }

  lemma CharacterSuffixEnds()
    ensures CharacterSuffix != [] && NoSpaceAtEnds(CharacterSuffix)
  {
  }

  /** Cleaning removes one trailing `(Character)` together with the
      whitespace before it, and keeps everything in front of it. */
  lemma CleanNameRemovesSuffix(n: string, x: string, w: string)
    requires n == x + w + CharacterSuffix
    requires NoSpaceAtEnds(x)
    requires AllSpace(w)
    ensures CleanName(n) == x
  {
    CharacterSuffixEnds();
    if x == [] && w != [] {
      assert n == w + CharacterSuffix + [];
      StripOfPadded(w, CharacterSuffix, []);
      assert CharacterSuffix == [] + [] + CharacterSuffix;
      DropSuffixOf(CharacterSuffix, [], [], CharacterSuffix);
    } else {
      DropSuffixOf(n, x, w, CharacterSuffix);
    }
  }

  /** A name that is exactly `(Character)` passes Validation (it is
      non-empty) and leaves Cleaning empty. */
  lemma CharacterOnlyNameEmptied(it: Item)
    requires it.name == Some(CharacterSuffix)
    requires Truthy(it.url) && HasHttpScheme(it.url.value)
    ensures Validate(it).Pass?
    ensures Clean(it).name == Some("")
    ensures ProcessItem(it, State(map[], {})).outcome.Pass? <==> AcceptableImage(Clean(it).imageUrl)
  {
    assert CharacterSuffix == [] + [] + CharacterSuffix;
    CleanNameRemovesSuffix(CharacterSuffix, [], []);
    FreshPipelineEmits(it);
  }

  /** On a fresh pipeline (empty cache, nothing seen) a valid item is emitted
      exactly when its cleaned image URL is acceptable. */
  lemma FreshPipelineEmits(it: Item)
    requires Validate(it).Pass?
    ensures ProcessItem(it, State(map[], {})).outcome.Pass? <==> AcceptableImage(Clean(it).imageUrl)
  {
  }

  /** Only the final `(Character)` goes, so a doubled suffix keeps one copy. */
  lemma CleanNameOneSuffixOnly()
    ensures CleanName("(Character)(Character)") == "(Character)"
  {
    assert "(Character)(Character)" == CharacterSuffix + [] + CharacterSuffix;
    CleanNameRemovesSuffix("(Character)(Character)", CharacterSuffix, []);
  }

  /** Any other parenthetical stays. */
  lemma CleanNameKeepsOtherParenthetical(n: string, x: string, y: string)
    requires n == x + "(" + y + ")"
    requires x == [] || !IsSpace(x[0])
    requires '(' !in y && y != "Character"
    ensures CleanName(n) == n
  {
    assert n[|n| - 1] == ')';
    assert n[0] == if x == [] then '(' else x[0];
    StripTrimmed(n);
    NotCharacterSuffix(n, x, y);
  }

  lemma NotCharacterSuffix(n: string, x: string, y: string)
    requires n == x + "(" + y + ")"
    requires '(' !in y && y != "Character"
    ensures !EndsWith(n, CharacterSuffix)
  {
    if |n| >= |CharacterSuffix| {
      var k := |n| - |CharacterSuffix|;
      if |y| > 9 {
        assert n[k] == y[|y| - 10];
        assert n[k..][0] != CharacterSuffix[0];
      } else if |y| < 9 {
        assert n[k..][|x| - k] == n[|x|] == '(';
        assert CharacterSuffix[|x| - k] != '(';
      } else {
        MiddleSlice(n, x, "(", y, ")");
        SliceOfSuffix(n, k, 1, 10);
        assert CharacterSuffix[1..10] == "Character";
      }
    }
  }

  /** The key joins name and url with "::", so two different (name, url)
      pairs can share a key. */
  lemma KeyCollision(a: string, b: string, c: string, i1: Option<string>, i2: Option<string>)
    ensures Item(Some(a + "::" + b), Some(c), i1).name != Item(Some(a), Some(b + "::" + c), i2).name
    ensures Key(Item(Some(a + "::" + b), Some(c), i1)) == Key(Item(Some(a), Some(b + "::" + c), i2))
  {
    assert |a + "::" + b| != |a|;
    assert (a + "::" + b) + "::" + c == a + "::" + (b + "::" + c);
  }

  lemma KeyLayout(n: string, u: string)
    ensures (n + "::" + u)[|n|] == ':'
    ensures forall i :: 0 <= i < |n| ==> (n + "::" + u)[i] == n[i]
  {
  }

  /** The collision needs the separator inside a name: for names without
      `:` the key determines the name and the url. */
  lemma KeyInjective(it1: Item, it2: Item)
    requires it1.name.Some? && it1.url.Some? && it2.name.Some? && it2.url.Some?
    requires ':' !in it1.name.value && ':' !in it2.name.value
    requires Key(it1) == Key(it2)
    ensures it1.name == it2.name && it1.url == it2.url
  {
    var n1, n2 := it1.name.value, it2.name.value;
    var k := Key(it1);
    assert k == n1 + "::" + it1.url.value;
    assert k == n2 + "::" + it2.url.value;
    KeyLayout(n1, it1.url.value);
    KeyLayout(n2, it2.url.value);
    if |n1| != |n2| {
      assert false;
    }
    assert n1 == k[..|n1|] == n2;
    assert it1.url.value == k[|n1| + 2..] == it2.url.value;
  }

  /** So the second of two colliding items is dropped as a duplicate even
      though neither its name nor its url was seen before. */
  lemma CollidingItemDropped(a: string, b: string, c: string, i1: Option<string>, i2: Option<string>, seen: set<string>)
    ensures var first := Item(Some(a + "::" + b), Some(c), i1);
      var second := Item(Some(a), Some(b + "::" + c), i2);
      Dedup(second, Dedup(first, seen).state).outcome == Drop(Duplicate)
  {
    KeyCollision(a, b, c, i1, i2);
  }

  /** Two items that clean to the same name and url: once the first has been
      emitted, the second is dropped, whatever its image. */
  lemma SecondCopyDropped(it1: Item, it2: Item, st: State)
    requires ProcessItem(it1, st).outcome.Pass?
    requires Clean(it2).name == Clean(it1).name && Clean(it2).url == Clean(it1).url
    ensures ProcessItem(it2, ProcessItem(it1, st).state).outcome.Drop?
  {
    assert Key(Clean(it2)) == Key(Clean(it1));
  }
}
