/** `FandomSpider.clean_image_url` (scraper/scraper/spiders/fandom_spider.py),
    which the spider applies to every image `src` it extracts and
    `CleaningPipeline` applies a second time. */
module ImageUrl {
  import opened Wrappers
  import opened Strings

  /** The four scaling transforms, removed in this order. */
  const WidthDown := "/scale-to-width-down/"
  const HeightDown := "/scale-to-height-down/"
  const Width := "/scale-to-width/"
  const Height := "/scale-to-height/"
  /** The text all four transforms start with. */
  const ScalePrefix := "/scale-to-"
  /** Everything from the first occurrence of this marker on is dropped. */
  const Revision := "/revision/latest"

  /** Length of the run of digits `s` starts with; `\d+` is greedy. */
  function DigitRun(s: string): (n: nat)
    ensures n <= |s|
    ensures forall i :: 0 <= i < n ==> IsDigit(s[i])
    ensures n < |s| ==> !IsDigit(s[n])
  {
    if |s| == 0 || !IsDigit(s[0]) then 0 else 1 + DigitRun(s[1..])
  }

  /** `re.sub(m + r'\d+', '', s)`: scanning from the left, every occurrence of
      the marker `m` followed by at least one digit is removed together with
      all the digits that follow it. */
  function RemoveScale(s: string, m: string): (r: string)
    ensures |r| <= |s|
    decreases |s|
  {
    if |s| == 0 then []
    else if m <= s && |m| < |s| && IsDigit(s[|m|]) then
      RemoveScale(s[|m| + DigitRun(s[|m|..])..], m)
    else [s[0]] + RemoveScale(s[1..], m)
  }

  /** `//host/...` becomes `https://host/...`: afterwards the URL is never
      protocol-relative, and the original text is kept at its end. Any
      other URL is left as it is. */
  function Upgrade(u: string): (r: string)
    ensures !StartsWith(r, "//")
    ensures EndsWith(r, u)
    ensures StartsWith(u, "//") ==> StartsWith(r, "https://") && |r| == |u| + 6
    ensures !StartsWith(u, "//") ==> r == u
  {
    if StartsWith(u, "//") then
      var r := "https:" + u;
      assert r[0] == 'h' && r[|r| - |u|..] == u;
      r
    else u
  }

  /** The four `re.sub` calls that remove scaling transforms, in source order. */
  function RemoveScaling(s: string): (r: string)
    ensures |r| <= |s|
  {
    RemoveScale(RemoveScale(RemoveScale(RemoveScale(s, WidthDown), HeightDown), Width), Height)
  }

  /** The cleaning applied to a non-empty URL: upgrade a protocol-relative URL,
      remove the four scaling transforms, drop everything from
      `/revision/latest` on, then everything from the first `?` on. */
  function CleanStr(u: string): (r: string)
    ensures '?' !in r
    ensures !Contains(r, Revision)
  {
    var s5 := CutAt(RemoveScaling(Upgrade(u)), Revision);
    var r := CutAt(s5, "?");
    ContainsChar(r, '?');
    assert !Contains(r, Revision) by {
      if Contains(r, Revision) {
        ContainsInPrefix(r, s5, Revision);
      }
    }
    r
  }

  /** `clean_image_url`: `None` for a missing or empty URL, otherwise the
      cleaned string (which may itself be empty). */
  function CleanImageUrl(u: Option<string>): (r: Option<string>)
    ensures r.None? <==> (u.None? || u.value == "")
    ensures r.Some? ==> r.value == CleanStr(u.value)
  {
    if u.None? || u.value == "" then None else Some(CleanStr(u.value))
  }

  // ---------------------------------------------------------------------------
  // Removal passes over a prefix that no match can start in

  /** Removing a marker that does not occur changes nothing. */
  lemma {:induction false} RemoveScaleAbsent(s: string, m: string)
    requires !Contains(s, m)
    ensures RemoveScale(s, m) == s
    decreases |s|
  {
    if |s| > 0 {
      RemoveScaleAbsent(s[1..], m);
    }
  }

  /** The four removals do nothing to text without "/scale-to-". */
  lemma RemoveScalingAbsent(s: string)
    requires !Contains(s, ScalePrefix)
    ensures RemoveScaling(s) == s
  {
    NoScaleMarkers(s);
    RemoveScaleAbsent(s, WidthDown);
    RemoveScaleAbsent(s, HeightDown);
    RemoveScaleAbsent(s, Width);
    RemoveScaleAbsent(s, Height);
  }

  /** The four removals leave a prefix without '/' in place. */
  lemma RemoveScalingSkip(a: string, b: string)
    requires '/' !in a
    ensures RemoveScaling(a + b) == a + RemoveScaling(b)
  {
    NoMatchBefore(a, b, WidthDown, 0);
    RemoveScaleSkip(a, b, WidthDown);
    var t1 := RemoveScale(b, WidthDown);
    NoMatchBefore(a, t1, HeightDown, 0);
    RemoveScaleSkip(a, t1, HeightDown);
    var t2 := RemoveScale(t1, HeightDown);
    NoMatchBefore(a, t2, Width, 0);
    RemoveScaleSkip(a, t2, Width);
    var t3 := RemoveScale(t2, Width);
    NoMatchBefore(a, t3, Height, 0);
    RemoveScaleSkip(a, t3, Height);
  }

  /** Removing `m` from `a + b`, where `m` starts nowhere inside `a`, keeps
      all of `a`. */
  lemma {:induction false} RemoveScaleSkip(a: string, b: string, m: string)
    requires forall i :: 0 <= i < |a| ==> !(m <= (a + b)[i..])
    ensures RemoveScale(a + b, m) == a + RemoveScale(b, m)
    decreases |a|
  {
    if |a| == 0 {
      assert a + b == b;
    } else {
      assert (a + b)[0..] == a + b;
      assert (a + b)[1..] == a[1..] + b;
      forall i | 0 <= i < |a[1..]|
        ensures !(m <= (a[1..] + b)[i..])
      {
        assert (a[1..] + b)[i..] == (a + b)[i + 1..];
      }
      RemoveScaleSkip(a[1..], b, m);
    }
  }

  /** One removal at the front: `m`, then the digits `d`, then text `b` that
      does not start with a digit. */
  lemma RemoveScaleAtFront(m: string, d: string, b: string)
    requires |d| > 0 && forall i :: 0 <= i < |d| ==> IsDigit(d[i])
    requires |b| > 0 ==> !IsDigit(b[0])
    ensures RemoveScale(m + d + b, m) == RemoveScale(b, m)
  {
    var s := m + d + b;
    assert m <= s;
    assert s[|m|..] == d + b;
    assert DigitRun(d + b) == |d| by {
      DigitRunOf(d, b);
    }
    assert s[|m| + |d|..] == b;
  }

  lemma {:induction false} DigitRunOf(d: string, b: string)
    requires forall i :: 0 <= i < |d| ==> IsDigit(d[i])
    requires |b| > 0 ==> !IsDigit(b[0])
    ensures DigitRun(d + b) == |d|
    decreases |d|
  {
    if |d| == 0 {
      assert d + b == b;
    } else {
      assert (d + b)[1..] == d[1..] + b;
      DigitRunOf(d[1..], b);
    }
  }

  /** The two cuts keep a prefix that holds neither '/' nor '?'. */
  lemma CutsSkip(a: string, b: string)
    requires '/' !in a && '?' !in a
    ensures CutAt(CutAt(a + b, Revision), "?") == a + CutAt(CutAt(b, Revision), "?")
  {
    NoMatchBefore(a, b, Revision, 0);
    CutAtSkip(a, b, Revision);
    CutAtCharSkip(a, CutAt(b, Revision), '?');
  }

  /** The four removals and the two cuts all start at a '/' or a '?', so
      none of them can touch a prefix of the upgraded URL that holds
      neither. */
  lemma CleanKeepsPrefix(u: string, a: string, b: string)
    requires Upgrade(u) == a + b && '/' !in a && '?' !in a
    ensures a <= CleanStr(u)
  {
    RemoveScalingSkip(a, b);
    CutsSkip(a, RemoveScaling(b));
  }

  /** So a protocol-relative URL keeps the "https:" it is given. */
  lemma CleanKeepsHttpsPrefix(t: string)
    ensures StartsWith(CleanStr("//" + t), "https:")
  {
    CleanKeepsPrefix("//" + t, "https:", "//" + t);
  }

  // ---------------------------------------------------------------------------
  // When cleaning is, and is not, idempotent

  /** A protocol-relative URL comes out starting with "https:". */
  lemma CleanUpgradesProtocolRelative(u: string)
    requires StartsWith(u, "//")
    ensures StartsWith(CleanStr(u), "https:")
  {
    assert u == "//" + u[2..];
    CleanKeepsHttpsPrefix(u[2..]);
  }

  /** A string without a scaling marker, a revision marker, a `?` or a leading
      "//" is left as it is. */
  lemma CleanFixesCleanText(y: string)
    requires !StartsWith(y, "//")
    requires !Contains(y, ScalePrefix) && !Contains(y, Revision) && '?' !in y
    ensures CleanStr(y) == y
  {
    RemoveScalingAbsent(y);
    CutAtAbsent(y, Revision);
    ContainsChar(y, '?');
    CutAtAbsent(y, "?");
  }

  /** Text without "/scale-to-" holds none of the four transforms. */
  lemma NoScaleMarkers(s: string)
    requires !Contains(s, ScalePrefix)
    ensures !Contains(s, WidthDown) && !Contains(s, HeightDown)
    ensures !Contains(s, Width) && !Contains(s, Height)
  {
    if Contains(s, WidthDown) { ContainsPrefixOfPattern(s, WidthDown, ScalePrefix); }
    if Contains(s, HeightDown) { ContainsPrefixOfPattern(s, HeightDown, ScalePrefix); }
    if Contains(s, Width) { ContainsPrefixOfPattern(s, Width, ScalePrefix); }
    if Contains(s, Height) { ContainsPrefixOfPattern(s, Height, ScalePrefix); }
  }

  /** Without any "/scale-to-" in the input, the four removals do nothing and
      the result is a prefix of the (possibly upgraded) input. */
  lemma CleanWithoutScaling(u: string)
    requires !Contains(u, ScalePrefix)
    ensures CleanStr(u) <= Upgrade(u) && !Contains(Upgrade(u), ScalePrefix)
  {
    UpgradeAddsNoMarker(u, ScalePrefix);
    RemoveScalingAbsent(Upgrade(u));
  }

  /** Upgrading adds no marker that starts with '/'. */
  lemma UpgradeAddsNoMarker(u: string, m: string)
    requires |m| > 0 && m[0] == '/' && !Contains(u, m)
    ensures !Contains(Upgrade(u), m)
  {
    if StartsWith(u, "//") && Contains("https:" + u, m) {
      ContainsAfter("https:", u, m);
    }
  }

  /** Cleaning is idempotent on every URL that carries no "/scale-to-" text. */
  lemma CleanIdempotentWithoutScaling(u: string)
    requires !Contains(u, ScalePrefix)
    ensures CleanStr(CleanStr(u)) == CleanStr(u)
  {
    var y := CleanStr(u);
    CleanWithoutScaling(u);
    if Contains(y, ScalePrefix) {
      ContainsInPrefix(y, Upgrade(u), ScalePrefix);
    }
    CleanFixesCleanText(y);
  }

  /** Text with no scaling, revision or query left is returned as the
      scaling passes left it. */
  lemma CleanStrAfterScaling(u: string, s: string)
    requires RemoveScaling(Upgrade(u)) == s
    requires '?' !in s && !Contains(s, Revision)
    ensures CleanStr(u) == s
  {
    CutAtAbsent(s, Revision);
    ContainsChar(s, '?');
    CutAtAbsent(s, "?");
  }

  /** Only a leading "//" is upgraded. */
  lemma UpgradeNoOp(u: string)
    requires |u| >= 2 && u[1] != '/'
    ensures Upgrade(u) == u
  {
  }

  /** When the upgraded text holds no scaling, revision or query markers,
      upgrading is all that cleaning does. */
  lemma CleanOnlyUpgrades(t: string, v: string)
    requires StartsWith(t, "//") && v == "https:" + t
    requires !Contains(v, ScalePrefix) && !Contains(v, Revision) && '?' !in v
    ensures CleanStr(t) == v
  {
    RemoveScalingAbsent(v);
    CleanStrAfterScaling(t, v);
  }

  // ---------------------------------------------------------------------------
  // Generic single-transform cleanings, used by the worked examples below

  /** A leading `WidthDown` transform is removed and nothing else is, when
      the rest holds no "/scale-to-". */
  lemma LeadingWidthTransform(d: string, t: string)
    requires |d| > 0 && forall i :: 0 <= i < |d| ==> IsDigit(d[i])
    requires |t| > 0 ==> !IsDigit(t[0])
    requires !Contains(t, ScalePrefix)
    ensures RemoveScaling(WidthDown + d + t) == t
  {
    RemoveScaleAtFront(WidthDown, d, t);
    NoScaleMarkers(t);
    RemoveScaleAbsent(t, WidthDown);
    RemoveScalingAbsent(t);
  }

  lemma LeadingWidthDownKept(d: string, t: string)
    ensures Upgrade(WidthDown + d + t) == WidthDown + d + t
  {
    assert (WidthDown + d + t)[1] == 's';
  }

  lemma LeadingWidthDownScaling(u: string, d: string, t: string)
    requires u == WidthDown + d + t
    requires |d| > 0 && forall i :: 0 <= i < |d| ==> IsDigit(d[i])
    requires |t| > 0 ==> !IsDigit(t[0])
    requires !Contains(t, ScalePrefix)
    ensures RemoveScaling(Upgrade(u)) == t
  {
    LeadingWidthDownKept(d, t);
    LeadingWidthTransform(d, t);
  }

  /** A leading `WidthDown` transform is removed and the rest of the URL is
      untouched, when the rest holds no marker that a later step acts on. */
  lemma LeadingWidthDownClean(u: string, d: string, t: string)
    requires u == WidthDown + d + t
    requires |d| > 0 && forall i :: 0 <= i < |d| ==> IsDigit(d[i])
    requires |t| > 0 ==> !IsDigit(t[0])
    requires !Contains(t, ScalePrefix) && !Contains(t, Revision) && '?' !in t
    ensures CleanStr(u) == t
  {
    LeadingWidthDownScaling(u, d, t);
    CleanStrAfterScaling(u, t);
  }

  /** The `Width` pass on `a + (Width + d + rest)` removes the one transform
      after `a`. */
  lemma WidthPassAfter(s: string, a: string, d: string, rest: string)
    requires s == a + (Width + d + rest)
    requires |d| > 0 && forall i :: 0 <= i < |d| ==> IsDigit(d[i])
    requires |rest| > 0 && !IsDigit(rest[0])
    requires forall i :: 0 <= i < |a| ==> !(Width <= s[i..])
    requires !Contains(rest, Width)
    ensures RemoveScale(s, Width) == a + rest
  {
    RemoveScaleSkip(a, Width + d + rest, Width);
    RemoveScaleAtFront(Width, d, rest);
    RemoveScaleAbsent(rest, Width);
  }

  /** All four passes on `a + (Width + d + rest)`: only that transform goes. */
  lemma WidthTransformScaling(u: string, a: string, d: string, rest: string, r: string)
    requires u == a + (Width + d + rest) && r == a + rest
    requires |d| > 0 && forall i :: 0 <= i < |d| ==> IsDigit(d[i])
    requires |rest| > 0 && !IsDigit(rest[0])
    requires !Contains(u, WidthDown) && !Contains(u, HeightDown)
    requires forall i :: 0 <= i < |a| ==> !(Width <= u[i..])
    requires !Contains(rest, Width) && !Contains(r, Height)
    ensures RemoveScaling(u) == r
  {
    RemoveScaleAbsent(u, WidthDown);
    RemoveScaleAbsent(u, HeightDown);
    WidthPassAfter(u, a, d, rest);
    RemoveScaleAbsent(r, Height);
  }

  /** Cleaning `a + (Width + d + rest)` removes exactly the `Width`
      transform. */
  lemma WidthTransformClean(u: string, a: string, d: string, rest: string, r: string)
    requires u == a + (Width + d + rest) && r == a + rest
    requires |d| > 0 && forall i :: 0 <= i < |d| ==> IsDigit(d[i])
    requires |rest| > 0 && !IsDigit(rest[0])
    requires |u| >= 2 && u[1] != '/'
    requires !Contains(u, WidthDown) && !Contains(u, HeightDown)
    requires forall i :: 0 <= i < |a| ==> !(Width <= u[i..])
    requires !Contains(rest, Width) && !Contains(r, Height)
    requires !Contains(r, Revision) && '?' !in r
    ensures CleanStr(u) == r
  {
    UpgradeNoOp(u);
    WidthTransformScaling(u, a, d, rest, r);
    CleanStrAfterScaling(u, r);
  }

  /** The `WidthDown` pass on `a + (WidthDown + d + tail)`, where no match
      can start inside `a` or `tail`. */
  lemma WidthDownPassAfter(s: string, a: string, d: string, tail: string)
    requires s == a + (WidthDown + d + tail)
    requires |d| > 0 && forall i :: 0 <= i < |d| ==> IsDigit(d[i])
    requires |tail| > 0 && !IsDigit(tail[0])
    requires '-' !in a && 'c' !in tail
    ensures RemoveScale(s, WidthDown) == a + tail
  {
    WidthDownShape(WidthDown);
    MarkerPassAfter(s, a, WidthDown, d, tail, 6, 2);
  }

  /** The characters of `WidthDown` the pass above relies on. */
  lemma WidthDownShape(m: string)
    requires m == WidthDown
    ensures |m| > 6 && m[6] == '-' && m[2] == 'c'
    ensures forall j :: 0 < j <= 6 ==> m[j] != m[0]
  {
  }

  /** The pass removing `m` on `a + (m + d + tail)`, where `m` cannot start
      inside `a` (it lacks `m[j]`) or inside `tail` (it lacks `m[k]`). */
  lemma MarkerPassAfter(s: string, a: string, m: string, d: string, tail: string, j: nat, k: nat)
    requires s == a + (m + d + tail)
    requires |d| > 0 && forall i :: 0 <= i < |d| ==> IsDigit(d[i])
    requires |tail| > 0 && !IsDigit(tail[0])
    requires j < |m| && m[j] !in a && forall i :: 0 < i <= j ==> m[i] != m[0]
    requires k < |m| && m[k] !in tail
    ensures RemoveScale(s, m) == a + tail
  {
    NoMatchBefore(a, m + d + tail, m, j);
    RemoveScaleSkip(a, m + d + tail, m);
    MarkerAtFront(m, d, tail, k);
  }

  /** A marker at the front is removed with its digits; the rest, lacking
      one of the marker's characters, is kept. */
  lemma MarkerAtFront(m: string, d: string, tail: string, k: nat)
    requires |d| > 0 && forall i :: 0 <= i < |d| ==> IsDigit(d[i])
    requires |tail| > 0 && !IsDigit(tail[0])
    requires k < |m| && m[k] !in tail
    ensures RemoveScale(m + d + tail, m) == tail
  {
    RemoveScaleAtFront(m, d, tail);
    MissingChar(tail, m, k);
    RemoveScaleAbsent(tail, m);
  }

  /** The other three passes leave `a + Revision` alone. */
  lemma OtherPassesBeforeRevision(s1: string, a: string)
    requires s1 == a + Revision
    requires '-' !in a
    ensures RemoveScale(RemoveScale(RemoveScale(s1, HeightDown), Width), Height) == s1
  {
    MissingChar(s1, HeightDown, 6);
    MissingChar(s1, Width, 6);
    MissingChar(s1, Height, 6);
    RemoveScaleAbsent(s1, HeightDown);
    RemoveScaleAbsent(s1, Width);
    RemoveScaleAbsent(s1, Height);
  }

  /** The scaling passes on `a + (WidthDown + d + Revision)` remove the
      transform only. */
  lemma ScaledRevisionScaling(s: string, a: string, d: string)
    requires s == a + (WidthDown + d + Revision)
    requires |d| > 0 && forall i :: 0 <= i < |d| ==> IsDigit(d[i])
    requires '-' !in a
    ensures RemoveScaling(s) == a + Revision
  {
    assert 'c' !in Revision;
    WidthDownPassAfter(s, a, d, Revision);
    OtherPassesBeforeRevision(a + Revision, a);
  }

  /** The two cuts on `a + Revision` leave `a`. */
  lemma RevisionCut(s1: string, a: string)
    requires s1 == a + Revision
    requires 'v' !in a && '?' !in a
    ensures CutAt(CutAt(s1, Revision), "?") == a
  {
    assert CutAt(s1, Revision) == a by {
      NoMatchBefore(a, Revision, Revision, 3);
      CutAtSkip(a, Revision, Revision);
      assert CutAt(Revision, Revision) == [];
      assert a + [] == a;
    }
    ContainsChar(a, '?');
    CutAtAbsent(a, "?");
  }

  /** The upgrade of a protocol-relative `p + b`. */
  lemma UpgradeProtocolRelative(u: string, p: string, b: string)
    requires StartsWith(p, "//") && u == p + b
    ensures Upgrade(u) == "https:" + p + b
  {
    assert u[..2] == "//";
  }

  /** A protocol-relative URL `p` followed by one width transform and the
      revision suffix cleans to the upgraded `p`. */
  lemma ScaledRevisionClean(u: string, p: string, d: string, a: string)
    requires StartsWith(p, "//") && u == p + (WidthDown + d + Revision) && a == "https:" + p
    requires |d| > 0 && forall i :: 0 <= i < |d| ==> IsDigit(d[i])
    requires '-' !in p && 'v' !in p && '?' !in p
    ensures CleanStr(u) == a
  {
    UpgradeProtocolRelative(u, p, WidthDown + d + Revision);
    assert "https:" + p + (WidthDown + d + Revision) == a + (WidthDown + d + Revision);
    ScaledRevisionScaling(a + (WidthDown + d + Revision), a, d);
    RevisionCut(a + Revision, a);
  }

  // ---------------------------------------------------------------------------
  // Worked examples

  /** The image URL of a character portrait: the scaling transform and the
      revision suffix are removed and the protocol-relative URL is upgraded. */
  lemma CleanWorkedExample(p: string)
    requires p == "//static.x/img/Ahri.png"
    ensures CleanStr(p + "/scale-to-width-down/200/revision/latest") == "https:" + p
  {
    WorkedExampleSuffix();
    ScaledRevisionClean(p + (WidthDown + "200" + Revision), p, "200", "https:" + p);
  }

  /** The suffix of the worked example, spelled with the constants; kept
      apart so that the literal is unfolded only here. */
  lemma WorkedExampleSuffix()
    ensures WidthDown + "200" + Revision == "/scale-to-width-down/200/revision/latest"
  {
  }

  /** A scaling transform in front of a protocol-relative tail: the first
      pass uncovers "//", which only a second pass upgrades. */
  lemma CleanUncoversSlashes(u: string, d: string, t: string, v: string)
    requires u == WidthDown + d + t && v == "https:" + t
    requires |d| > 0 && forall i :: 0 <= i < |d| ==> IsDigit(d[i])
    requires StartsWith(t, "//")
    requires 'c' !in t && 'v' !in t && '?' !in t
    ensures CleanStr(u) == t && CleanStr(t) == v
    ensures CleanStr(CleanStr(u)) != CleanStr(u)
  {
    UncoveredFirst(u, d, t);
    UncoveredSecond(t, v);
    assert |v| != |t|;
  }

  lemma UncoveredFirst(u: string, d: string, t: string)
    requires u == WidthDown + d + t
    requires |d| > 0 && forall i :: 0 <= i < |d| ==> IsDigit(d[i])
    requires StartsWith(t, "//")
    requires 'c' !in t && 'v' !in t && '?' !in t
    ensures CleanStr(u) == t
  {
    MissingChar(t, ScalePrefix, 2);
    MissingChar(t, Revision, 3);
    LeadingWidthDownClean(u, d, t);
  }

  lemma UncoveredSecond(t: string, v: string)
    requires v == "https:" + t
    requires StartsWith(t, "//")
    requires 'c' !in t && 'v' !in t && '?' !in t
    ensures CleanStr(t) == v
  {
    MissingChar(v, ScalePrefix, 2);
    MissingChar(v, Revision, 3);
    CleanOnlyUpgrades(t, v);
  }

  lemma CleanNotIdempotentUncoveredSlashes()
    ensures CleanStr("/scale-to-width-down/5//h/x.png") == "//h/x.png"
    ensures CleanStr("//h/x.png") == "https://h/x.png"
  {
    CleanUncoversSlashes("/scale-to-width-down/5//h/x.png", "5", "//h/x.png", "https://h/x.png");
  }

  /** Nested transforms: removing the inner `Width + d` joins the halves
      `ScalePrefix` and `"width/" + e` of an outer one, which only a second
      pass removes. */
  lemma CleanJoinsNestedMarkers(u: string, d: string, e: string, r: string, tail: string)
    requires u == ScalePrefix + (Width + d + ("width/" + e + tail)) && r == Width + e + tail
    requires |d| > 0 && forall i :: 0 <= i < |d| ==> IsDigit(d[i])
    requires |e| > 0 && forall i :: 0 <= i < |e| ==> IsDigit(e[i])
    requires |tail| > 0 && !IsDigit(tail[0])
    requires 'n' !in tail && 'c' !in tail && 'g' !in tail && 'v' !in tail && '?' !in tail
    ensures CleanStr(u) == r && CleanStr(r) == tail
    ensures CleanStr(CleanStr(u)) != CleanStr(u)
  {
    NestedFirst(u, d, e, r, tail);
    NestedSecond(r, e, tail);
    assert |r| != |tail|;
  }

  lemma NestedFirst(u: string, d: string, e: string, r: string, tail: string)
    requires u == ScalePrefix + (Width + d + ("width/" + e + tail)) && r == Width + e + tail
    requires |d| > 0 && forall i :: 0 <= i < |d| ==> IsDigit(d[i])
    requires |e| > 0 && forall i :: 0 <= i < |e| ==> IsDigit(e[i])
    requires 'n' !in tail && 'c' !in tail && 'g' !in tail && 'v' !in tail && '?' !in tail
    ensures CleanStr(u) == r
  {
    var rest := "width/" + e + tail;
    NestedRest(e, tail, r);
    NestedFirstScaling(u, d, rest, r);
    NestedFirstCuts(u, Width + d + rest, r);
  }

  /** The tail of the first pass, and the characters it lacks. */
  lemma NestedRest(e: string, tail: string, r: string)
    requires r == Width + e + tail
    requires forall i :: 0 <= i < |e| ==> IsDigit(e[i])
    requires 'n' !in tail && 'c' !in tail && 'g' !in tail && 'v' !in tail && '?' !in tail
    ensures r == ScalePrefix + ("width/" + e + tail)
    ensures var rest := "width/" + e + tail;
      rest[0] == 'w' && 'n' !in rest && 'c' !in rest && 'g' !in rest
    ensures 'v' !in r && '?' !in r
  {
    WidthSplit();
    ConcatAssoc(ScalePrefix, "width/", e, tail);
  }

  /** No upgrade, and nothing for the two cuts. */
  lemma NestedFirstCuts(u: string, t: string, r: string)
    requires u == ScalePrefix + t && RemoveScaling(u) == r
    requires 'v' !in r && '?' !in r
    ensures CleanStr(u) == r
  {
    UpgradeScaled(u, t);
    MissingChar(r, Revision, 3);
    CleanStrAfterScaling(u, r);
  }

  lemma WidthSplit()
    ensures Width == ScalePrefix + "width/"
  {
  }

  /** Text that starts with "/scale-to-" is not protocol-relative. */
  lemma UpgradeScaled(u: string, t: string)
    requires u == ScalePrefix + t
    ensures Upgrade(u) == u
  {
    assert u[1] == ScalePrefix[1];
  }

  lemma NestedFirstScaling(u: string, d: string, rest: string, r: string)
    requires u == ScalePrefix + (Width + d + rest) && r == ScalePrefix + rest
    requires |d| > 0 && forall i :: 0 <= i < |d| ==> IsDigit(d[i])
    requires |rest| > 0 && rest[0] == 'w'
    requires 'n' !in rest && 'c' !in rest && 'g' !in rest
    ensures RemoveScaling(u) == r
  {
    NestedNoDown(u, d, rest);
    NestedWidthOnce(u, d, rest, r);
    WidthTransformScaling(u, ScalePrefix, d, rest, r);
  }

  /** Neither "down" transform occurs: there is no 'n' to end one. */
  lemma NestedNoDown(u: string, d: string, rest: string)
    requires u == ScalePrefix + (Width + d + rest)
    requires forall i :: 0 <= i < |d| ==> IsDigit(d[i])
    requires 'n' !in rest
    ensures !Contains(u, WidthDown) && !Contains(u, HeightDown)
  {
    assert 'n' !in u;
    MissingChar(u, WidthDown, 19);
    MissingChar(u, HeightDown, 20);
  }

  /** The `Width` transform can start only after `ScalePrefix`, and neither it
      nor `Height` occurs in what is left. */
  lemma NestedWidthOnce(u: string, d: string, rest: string, r: string)
    requires u == ScalePrefix + (Width + d + rest) && r == ScalePrefix + rest
    requires rest != [] && rest[0] == 'w'
    requires 'c' !in rest && 'g' !in rest
    ensures forall i :: 0 <= i < |ScalePrefix| ==> !(Width <= u[i..])
    ensures !Contains(rest, Width) && !Contains(r, Height)
  {
    NoMatchBefore(ScalePrefix, Width + d + rest, Width, 10);
    MissingChar(rest, Width, 2);
    assert 'g' !in r;
    MissingChar(r, Height, 13);
  }

  lemma NestedSecond(u: string, e: string, tail: string)
    requires u == Width + e + tail
    requires |e| > 0 && forall i :: 0 <= i < |e| ==> IsDigit(e[i])
    requires |tail| > 0 && !IsDigit(tail[0])
    requires 'n' !in tail && 'c' !in tail && 'g' !in tail && 'v' !in tail && '?' !in tail
    ensures CleanStr(u) == tail
  {
    NestedSecondKept(u, e, tail);
    TailHasNoMarkers(tail);
    WidthTransformClean(u, [], e, tail, tail);
  }

  /** `Width + e + tail` is not upgraded and holds no "down" transform. */
  lemma NestedSecondKept(u: string, e: string, tail: string)
    requires u == Width + e + tail
    requires forall i :: 0 <= i < |e| ==> IsDigit(e[i])
    requires 'n' !in tail
    ensures u == [] + (Width + e + tail)
    ensures |u| >= 2 && u[1] != '/'
    ensures !Contains(u, WidthDown) && !Contains(u, HeightDown)
  {
    assert [] + u == u;
    WidthKept(u, e + tail);
    WidthDigitsNoN(e, tail);
    NoDownWithoutN(u);
  }

  /** Shape facts about the nested example, each unfolding one constant. */
  lemma WidthKept(u: string, t: string)
    requires u == Width + t
    ensures |u| >= 2 && u[1] != '/'
  {
    assert u[1] == Width[1];
  }

  lemma WidthDigitsNoN(e: string, tail: string)
    requires forall i :: 0 <= i < |e| ==> IsDigit(e[i])
    requires 'n' !in tail
    ensures 'n' !in Width + e + tail
  {
  }

  /** Neither "down" transform can occur in text without an 'n'. */
  lemma NoDownWithoutN(u: string)
    requires 'n' !in u
    ensures !Contains(u, WidthDown) && !Contains(u, HeightDown)
  {
    MissingChar(u, WidthDown, 19);
    MissingChar(u, HeightDown, 20);
  }

  /** Text without 'c', 'g' or 'v' holds neither `Width`, `Height` nor the
      revision marker. */
  lemma TailHasNoMarkers(tail: string)
    requires 'c' !in tail && 'g' !in tail && 'v' !in tail
    ensures !Contains(tail, Width) && !Contains(tail, Height) && !Contains(tail, Revision)
  {
    MissingChar(tail, Width, 2);
    MissingChar(tail, Height, 13);
    MissingChar(tail, Revision, 3);
  }

  /** "/scale-to-/scale-to-width/7width/9/portrait": the first cleaning
      leaves "/scale-to-width/9/portrait", which the second cleans to
      "/portrait". */
  lemma CleanNotIdempotentNestedMarkers(tail: string)
    requires tail == "/portrait"
    ensures CleanStr(ScalePrefix + (Width + "7" + ("width/" + "9" + tail))) == Width + "9" + tail
    ensures CleanStr(Width + "9" + tail) == tail
  {
    CleanJoinsNestedMarkers(ScalePrefix + (Width + "7" + ("width/" + "9" + tail)), "7", "9",
      Width + "9" + tail, tail);
  }

  /** A URL that is only a query cleans to the empty string, and
      `clean_image_url` maps that to `None`. */
  lemma CleanQueryOnlyVanishes()
    ensures CleanImageUrl(Some("?x")) == Some("")
    ensures CleanImageUrl(CleanImageUrl(Some("?x"))) == None
  {
    var u := "?x";
    MissingChar(u, ScalePrefix, 0);
    RemoveScalingAbsent(u);
    MissingChar(u, Revision, 0);
    CutAtAbsent(u, Revision);
    assert "?" <= u;
  }
}
