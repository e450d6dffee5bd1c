/**
 * The page-summary extractor of `src/lib/scraper.ts`: `scrapeURL` maps the fetch outcome to a
 * sentinel record or to a summary of the parsed page.
 *
 * The parsed page is a sequence of elements in document order, each with its tag name (lower
 * case, as the HTML parser yields it), its attributes and its text content; a selector is a
 * filter on that sequence. The fetch is an outcome given as a parameter, and the WHATWG URL
 * parser is an oracle `resolve(input, base)` that yields the hostname, or None when the
 * constructor throws.
 */
module Scraper {
  import opened Wrappers
  import opened JsString

  // ---------------------------------------------------------------------------------------
  // The parsed page

  datatype Element = Element(tag: string, attrs: map<string, string>, text: string)

  /** `$(tag)`: the elements with that tag name, in document order. */
  function Select(els: seq<Element>, tag: string): (r: seq<Element>)
    ensures |r| <= |els|
    ensures forall i :: 0 <= i < |r| ==> r[i].tag == tag && r[i] in els
    ensures forall e :: e in els && e.tag == tag ==> e in r
  {
    if els == [] then []
    else (if els[0].tag == tag then [els[0]] else []) + Select(els[1..], tag)
  }

  /** `[name="value"]`: the elements whose attribute `name` is exactly `value`. */
  function WithAttr(els: seq<Element>, name: string, value: string): (r: seq<Element>)
    ensures |r| <= |els|
    ensures forall i :: 0 <= i < |r| ==> name in r[i].attrs && r[i].attrs[name] == value && r[i] in els
    ensures forall e :: e in els && name in e.attrs && e.attrs[name] == value ==> e in r
  {
    if els == [] then []
    else (if name in els[0].attrs && els[0].attrs[name] == value then [els[0]] else [])
         + WithAttr(els[1..], name, value)
  }

  lemma AppendAssoc<T>(x: seq<T>, y: seq<T>, z: seq<T>)
    ensures x + (y + z) == (x + y) + z
  {
  }

  /** A selection over two lists of elements is the selection over the first, then over the second. */
  lemma {:induction false} SelectAppend(a: seq<Element>, b: seq<Element>, tag: string)
    ensures Select(a + b, tag) == Select(a, tag) + Select(b, tag)
    decreases |a|
  {
    if a == [] {
      assert a + b == b;
    } else {
      var head := if a[0].tag == tag then [a[0]] else [];
      assert (a + b)[0] == a[0] && (a + b)[1..] == a[1..] + b;
      assert Select(a + b, tag) == head + Select(a[1..] + b, tag);
      SelectAppend(a[1..], b, tag);
      AppendAssoc(head, Select(a[1..], tag), Select(b, tag));
    }
  }

  /** A selection over one element keeps it exactly when it has the tag. */
  lemma SelectOne(e: Element, tag: string)
    ensures Select([e], tag) == if e.tag == tag then [e] else []
  {
    assert [e][1..] == [];
  }

  /** The same for an attribute filter. */
  lemma {:induction false} WithAttrAppend(a: seq<Element>, b: seq<Element>, name: string, value: string)
    ensures WithAttr(a + b, name, value) == WithAttr(a, name, value) + WithAttr(b, name, value)
    decreases |a|
  {
    if a == [] {
      assert a + b == b;
    } else {
      var head := if name in a[0].attrs && a[0].attrs[name] == value then [a[0]] else [];
      assert (a + b)[0] == a[0] && (a + b)[1..] == a[1..] + b;
      assert WithAttr(a + b, name, value) == head + WithAttr(a[1..] + b, name, value);
      WithAttrAppend(a[1..], b, name, value);
      AppendAssoc(head, WithAttr(a[1..], name, value), WithAttr(b, name, value));
    }
  }

  /** An attribute filter over one element keeps it exactly when the attribute has the value. */
  lemma WithAttrOne(e: Element, name: string, value: string)
    ensures WithAttr([e], name, value) == if name in e.attrs && e.attrs[name] == value then [e] else []
  {
    assert [e][1..] == [];
  }

  /** `.text()` of a selection: the text of every element, concatenated in order. */
  function TextOf(els: seq<Element>): string
  {
    if els == [] then "" else els[0].text + TextOf(els[1..])
  }

  /** `$(el).attr(name)`: None when the attribute is absent. */
  function Attr(e: Element, name: string): Option<string>
  {
    if name in e.attrs then Some(e.attrs[name]) else None
  }

  /** `$(el).attr(name) || ''` */
  function AttrOrEmpty(e: Element, name: string): (r: string)
    ensures name in e.attrs ==> r == e.attrs[name]
    ensures name !in e.attrs ==> r == ""
  {
    Attr(e, name).GetOr("")
  }

  // ---------------------------------------------------------------------------------------
  // The summary record

  datatype ImageTag = ImageTag(src: string, alt: string)
  datatype SpeedIndicator = SpeedIndicator(imageCount: nat, scriptCount: nat, cssCount: nat)

  datatype SeoData = SeoData(
    title: string,
    description: string,
    headings: map<string, seq<string>>,
    internalLinks: nat,
    externalLinks: nat,
    imageAltTags: seq<ImageTag>,
    content: string,
    url: string,
    loadSpeedIndicator: SpeedIndicator,
    isSimulated: bool)

  /** What `fetch` and `response.text()` do: throw, or yield a status and the parsed page. */
  datatype FetchOutcome = FetchFailed | Responded(status: nat, page: seq<Element>)

  /** `response.ok` */
  predicate IsOk(status: nat)
  {
    200 <= status <= 299
  }

  /** The record returned whenever the page cannot be read: nothing counted, marked as simulated. */
  function Restricted(url: string): (d: SeoData)
    ensures d.url == url && d.isSimulated
    ensures d.headings == map[] && d.imageAltTags == []
    ensures d.internalLinks == 0 && d.externalLinks == 0 && d.loadSpeedIndicator == SpeedIndicator(0, 0, 0)
  {
    SeoData("Access Restricted", "Deep crawl blocked by target security filters.", map[], 0, 0, [],
            "Access restricted", url, SpeedIndicator(0, 0, 0), true)
  }

  const StatusPrefix := "Response status "
  const StatusSuffix := ". Analyzing via domain intelligence."

  /** The content of the record for a status that is neither ok nor 401/403. */
  function StatusContent(status: nat): string
  {
    StatusPrefix + DecimalString(status) + StatusSuffix
  }

  /** The status can be read back from the content it was written into. */
  lemma StatusContentNamesStatus(status: nat)
    ensures var c := StatusContent(status);
            var digits := c[|StatusPrefix|..|c| - |StatusSuffix|];
            (forall i :: 0 <= i < |digits| ==> IsDigit(digits[i])) && DecimalValue(digits) == status
    ensures Includes(StatusContent(status), DecimalString(status))
  {
    var c := StatusContent(status);
    assert c[|StatusPrefix|..|c| - |StatusSuffix|] == DecimalString(status);
    assert OccursAt(c, DecimalString(status), |StatusPrefix|);
    DecimalRoundTrip(status);
  }

  // ---------------------------------------------------------------------------------------
  // Metadata and headings

  /** An element matched by `meta[name="description"]`. */
  predicate IsDescriptionMeta(e: Element)
  {
    e.tag == "meta" && Attr(e, "name") == Some("description")
  }

  /** `$('meta[name="description"]')`: the matching elements, in page order. */
  function DescriptionMetas(page: seq<Element>): seq<Element>
  {
    WithAttr(Select(page, "meta"), "name", "description")
  }

  /** `$('meta[name="description"]').attr('content') || ''`: read from the first such tag. */
  function Description(page: seq<Element>): (r: string)
    ensures (forall j :: 0 <= j < |page| ==> !IsDescriptionMeta(page[j])) ==> r == ""
    ensures forall j :: 0 <= j < |page| && IsDescriptionMeta(page[j])
                        && (forall k :: 0 <= k < j ==> !IsDescriptionMeta(page[k]))
                        ==> r == AttrOrEmpty(page[j], "content")
  {
    var metas := DescriptionMetas(page);
    NoDescriptionMeta(page);
    FirstDescriptionMeta(page);
    if metas == [] then "" else AttrOrEmpty(metas[0], "content")
  }

  /** The elements of a page that match the description selector, in page order (element by element). */
  function Matches(page: seq<Element>): seq<Element>
  {
    if page == [] then [] else (if IsDescriptionMeta(page[0]) then [page[0]] else []) + Matches(page[1..])
  }

  /** Selecting `meta`, then filtering on the `name` attribute, is that element-by-element filter. */
  lemma {:induction false} DescriptionMetasMatch(page: seq<Element>)
    ensures DescriptionMetas(page) == Matches(page)
  {
    if page != [] {
      DescriptionStep(page);
      DescriptionMetasMatch(page[1..]);
    }
  }

  /** The description selector finds nothing exactly when no element matches. */
  lemma NoDescriptionMeta(page: seq<Element>)
    ensures DescriptionMetas(page) == [] <==> forall j :: 0 <= j < |page| ==> !IsDescriptionMeta(page[j])
  {
    DescriptionMetasMatch(page);
    NoMatch(page);
  }

  lemma {:induction false} NoMatch(page: seq<Element>)
    ensures Matches(page) == [] <==> forall j :: 0 <= j < |page| ==> !IsDescriptionMeta(page[j])
  {
    if page != [] {
      var rest := page[1..];
      NoMatch(rest);
      if !IsDescriptionMeta(page[0]) {
        forall j | 1 <= j < |page|
          ensures page[j] == rest[j - 1]
        {
        }
      }
    }
  }

  /** The description selector's first element is the first matching element of the page. */
  lemma FirstDescriptionMeta(page: seq<Element>)
    ensures forall j :: 0 <= j < |page| && IsDescriptionMeta(page[j])
                        && (forall k :: 0 <= k < j ==> !IsDescriptionMeta(page[k]))
                        ==> DescriptionMetas(page) != [] && DescriptionMetas(page)[0] == page[j]
  {
    DescriptionMetasMatch(page);
    forall j | 0 <= j < |page| && IsDescriptionMeta(page[j]) && (forall k :: 0 <= k < j ==> !IsDescriptionMeta(page[k]))
      ensures Matches(page) != [] && Matches(page)[0] == page[j]
    {
      FirstMatchAt(page, j);
    }
  }

  lemma {:induction false} FirstMatchAt(page: seq<Element>, j: nat)
    requires j < |page| && IsDescriptionMeta(page[j])
    requires forall k :: 0 <= k < j ==> !IsDescriptionMeta(page[k])
    ensures Matches(page) != [] && Matches(page)[0] == page[j]
    decreases j
  {
    var rest := page[1..];
    if j > 0 {
      forall k | 0 <= k < j - 1
        ensures !IsDescriptionMeta(rest[k])
      {
        assert rest[k] == page[k + 1];
      }
      FirstMatchAt(rest, j - 1);
    }
  }

  /** The description selector unfolded at the first element of the page. */
  lemma DescriptionStep(page: seq<Element>)
    requires page != []
    ensures DescriptionMetas(page)
            == (if IsDescriptionMeta(page[0]) then [page[0]] else []) + DescriptionMetas(page[1..])
  {
    var e := page[0];
    assert page == [e] + page[1..];
    SelectAppend([e], page[1..], "meta");
    SelectOne(e, "meta");
    var head := if e.tag == "meta" then [e] else [];
    WithAttrAppend(head, Select(page[1..], "meta"), "name", "description");
    if e.tag == "meta" {
      WithAttrOne(e, "name", "description");
    }
  }

  const HeadingLevels: seq<string> := ["h1", "h2", "h3", "h4", "h5", "h6"]
  const MaxHeadingsPerLevel: nat := 10

  /** `$(h).map(el => $(el).text().trim()).get().slice(0, 10)` */
  function LevelTexts(page: seq<Element>, h: string): (r: seq<string>)
    ensures var els := Select(page, h);
            && |r| == (if |els| < MaxHeadingsPerLevel then |els| else MaxHeadingsPerLevel)
            && forall i :: 0 <= i < |r| ==> r[i] == Trim(els[i].text)
  {
    var els := Select(page, h);
    var texts := seq(|els|, i requires 0 <= i < |els| => Trim(els[i].text));
    texts[..if |texts| < MaxHeadingsPerLevel then |texts| else MaxHeadingsPerLevel]
  }

  /** The heading table: one entry per level. */
  function HeadingTable(page: seq<Element>): map<string, seq<string>>
  {
    map h | h in HeadingLevels :: LevelTexts(page, h)
  }

  /** The table has exactly the keys h1 to h6. */
  lemma HeadingKeys(page: seq<Element>)
    ensures HeadingTable(page).Keys == {"h1", "h2", "h3", "h4", "h5", "h6"}
  {
    assert forall h :: h in HeadingLevels <==> h in {"h1", "h2", "h3", "h4", "h5", "h6"};
  }

  /**
   * Each key holds the trimmed texts of the first (at most ten) headings of its level, in document
   * order.
   */
  lemma HeadingEntries(page: seq<Element>, h: string)
    requires h in HeadingTable(page)
    ensures var texts := HeadingTable(page)[h];
            && |texts| <= MaxHeadingsPerLevel && |texts| <= |Select(page, h)|
            && (|Select(page, h)| <= MaxHeadingsPerLevel ==> |texts| == |Select(page, h)|)
            && forall i :: 0 <= i < |texts| ==> texts[i] == Trim(Select(page, h)[i].text)
  {
  }

  /** The `forEach` over the levels, which fills the table key by key. */
  method CollectHeadings(page: seq<Element>) returns (headings: map<string, seq<string>>)
    ensures headings == HeadingTable(page)
  {
    headings := map[];
    for k := 0 to |HeadingLevels|
      invariant headings == map h | h in HeadingLevels[..k] :: LevelTexts(page, h)
    {
      var h := HeadingLevels[k];
      assert HeadingLevels[..k + 1] == HeadingLevels[..k] + [h];
      headings := headings[h := LevelTexts(page, h)];
    }
    assert HeadingLevels[..|HeadingLevels|] == HeadingLevels;
  }

  // ---------------------------------------------------------------------------------------
  // Links

  datatype LinkKind = Internal | External | Ignored

  /**
   * One anchor of the page at `url`, whose hostname is `base`: without a usable `href`, or with one
   * the URL parser rejects, it is skipped; a link to the page's own hostname is internal, and a link
   * to any other non-empty hostname, a subdomain included, is external.
   */
  function ClassifyLink(href: Option<string>, url: string, base: string,
                        resolve: (string, Option<string>) -> Option<string>): (k: LinkKind)
    ensures k == Internal <==> href.Some? && href.value != "" && resolve(href.value, Some(url)) == Some(base)
    ensures k == External <==>
              href.Some? && href.value != "" && resolve(href.value, Some(url)).Some?
              && resolve(href.value, Some(url)).value != base && resolve(href.value, Some(url)).value != ""
  {
    match href
    case None => Ignored
    case Some(h) =>
      if h == "" then Ignored
      else
        match resolve(h, Some(url))
        case None => Ignored
        case Some(host) => if host == base then Internal else if host != "" then External else Ignored
  }

  /** The `href` of every anchor classified as `kind`, in document order. */
  function LinksOfKind(anchors: seq<Element>, url: string, base: string,
                       resolve: (string, Option<string>) -> Option<string>, kind: LinkKind): (r: seq<string>)
    requires kind != Ignored
    ensures |r| <= |anchors|
    ensures forall i :: 0 <= i < |r| ==> r[i] != ""
    decreases |anchors|
  {
    if anchors == [] then []
    else
      var last := anchors[|anchors| - 1];
      LinksOfKind(anchors[..|anchors| - 1], url, base, resolve, kind)
      + if ClassifyLink(Attr(last, "href"), url, base, resolve) == kind then [last.attrs["href"]] else []
  }

  /** No anchor is counted twice: the internal and the external links together are at most the anchors. */
  lemma {:induction false} LinkTotals(anchors: seq<Element>, url: string, base: string,
                                      resolve: (string, Option<string>) -> Option<string>)
    ensures |LinksOfKind(anchors, url, base, resolve, Internal)| + |LinksOfKind(anchors, url, base, resolve, External)|
            <= |anchors|
    decreases |anchors|
  {
    if anchors != [] {
      LinkTotals(anchors[..|anchors| - 1], url, base, resolve);
    }
  }

  /** The `$('a').each` loop, which pushes each anchor's `href` onto the internal or the external list. */
  method CollectLinks(anchors: seq<Element>, url: string, base: string,
                      resolve: (string, Option<string>) -> Option<string>)
    returns (internal: seq<string>, external: seq<string>)
    ensures internal == LinksOfKind(anchors, url, base, resolve, Internal)
    ensures external == LinksOfKind(anchors, url, base, resolve, External)
  {
    internal, external := [], [];
    for i := 0 to |anchors|
      invariant internal == LinksOfKind(anchors[..i], url, base, resolve, Internal)
      invariant external == LinksOfKind(anchors[..i], url, base, resolve, External)
    {
      assert anchors[..i + 1][..i] == anchors[..i] && anchors[..i + 1][i] == anchors[i];
      var href := Attr(anchors[i], "href");
      if href.None? || href.value == "" {
        continue;
      }
      var target := resolve(href.value, Some(url));
      if target.None? {
        continue;
      }
      if target.value == base {
        internal := internal + [href.value];
      } else if target.value != "" {
        external := external + [href.value];
      }
    }
    assert anchors[..|anchors|] == anchors;
  }

  // ---------------------------------------------------------------------------------------
  // Images and content

  /** One entry per image, in document order, with '' for a missing `src` or `alt`. */
  function ImageAltTags(page: seq<Element>): (r: seq<ImageTag>)
    ensures var imgs := Select(page, "img");
            && |r| == |imgs|
            && forall i :: 0 <= i < |r| ==> r[i] == ImageTag(AttrOrEmpty(imgs[i], "src"), AttrOrEmpty(imgs[i], "alt"))
  {
    var imgs := Select(page, "img");
    seq(|imgs|, i requires 0 <= i < |imgs| => ImageTag(AttrOrEmpty(imgs[i], "src"), AttrOrEmpty(imgs[i], "alt")))
  }

  /** The text the content is taken from: the `main` elements if there are any, else the `article` ones, else `body`. */
  function ContentSource(page: seq<Element>): (r: string)
    ensures (exists e :: e in page && e.tag == "main") ==> r == TextOf(Select(page, "main"))
    ensures (forall e :: e in page ==> e.tag != "main") && (exists e :: e in page && e.tag == "article")
            ==> r == TextOf(Select(page, "article"))
    ensures (forall e :: e in page ==> e.tag != "main" && e.tag != "article") ==> r == TextOf(Select(page, "body"))
  {
    var mains := Select(page, "main");
    var articles := Select(page, "article");
    if |mains| > 0 then TextOf(mains)
    else if |articles| > 0 then TextOf(articles)
    else TextOf(Select(page, "body"))
  }

  /** The characters at `i - 1` and `i` are both white space. */
  predicate SpacePair(s: string, i: int)
    requires 0 < i < |s|
  {
    IsSpace(s[i - 1]) && IsSpace(s[i])
  }

  /** No two white-space characters stand next to each other. */
  predicate NoAdjacentSpaces(s: string)
  {
    forall i :: 0 < i < |s| ==> !SpacePair(s, i)
  }

  /** Some character is not white space. */
  predicate HasText(s: string)
  {
    exists i :: 0 <= i < |s| && !IsSpace(s[i])
  }

  /** `s.replace(/\s\s+/g, ' ')`: every run of two or more white-space characters becomes one space. */
  function CollapseWhitespace(s: string): (r: string)
    ensures NoAdjacentSpaces(r)
    ensures |s| > 0 ==> |r| > 0 && (IsSpace(r[0]) <==> IsSpace(s[0]))
    decreases |s|
  {
    if |s| == 0 then ""
    else if |s| >= 2 && IsSpace(s[0]) && IsSpace(s[1]) then
      var rest := TrimStart(s);
      assert |rest| < |s|;
      ConsNoAdjacent(' ', CollapseWhitespace(rest));
      " " + CollapseWhitespace(rest)
    else
      var r := [s[0]] + CollapseWhitespace(s[1..]);
      assert r[1..] == CollapseWhitespace(s[1..]);
      ConsNoAdjacent(s[0], CollapseWhitespace(s[1..]));
      r
  }

  /** The collapse leaves text exactly when there was some. */
  lemma {:induction false} CollapseHasText(s: string)
    ensures HasText(CollapseWhitespace(s)) <==> HasText(s)
    decreases |s|
  {
    if |s| >= 2 && IsSpace(s[0]) && IsSpace(s[1]) {
      var rest := TrimStart(s);
      CollapseHasText(rest);
      assert HasText(s) ==> HasText(rest) by {
        if HasText(s) {
          var i :| 0 <= i < |s| && !IsSpace(s[i]);
          assert rest[i - (|s| - |rest|)] == s[i];
        }
      }
      assert HasText(rest) ==> HasText(s) by {
        if HasText(rest) {
          var i :| 0 <= i < |rest| && !IsSpace(rest[i]);
          assert s[i + (|s| - |rest|)] == rest[i];
        }
      }
      ShiftText(" ", CollapseWhitespace(rest));
    } else if |s| > 0 {
      CollapseHasText(s[1..]);
      ShiftText([s[0]], CollapseWhitespace(s[1..]));
      ShiftText([s[0]], s[1..]);
      assert [s[0]] + s[1..] == s;
    }
  }

  /** A character put in front keeps two spaces apart unless both it and the first character are spaces. */
  lemma ConsNoAdjacent(c: char, t: string)
    requires NoAdjacentSpaces(t) && (|t| > 0 && IsSpace(c) ==> !IsSpace(t[0]))
    ensures NoAdjacentSpaces([c] + t)
  {
    var r := [c] + t;
    forall i | 0 < i < |r|
      ensures !SpacePair(r, i)
    {
      if i > 1 {
        assert r[i - 1] == t[i - 2] && r[i] == t[i - 1];
        assert !SpacePair(t, i - 1);
      }
    }
  }

  /** A concatenation has text exactly when one of its parts does. */
  lemma ShiftText(a: string, b: string)
    ensures HasText(a + b) <==> HasText(a) || HasText(b)
  {
    var s := a + b;
    if HasText(b) {
      var i :| 0 <= i < |b| && !IsSpace(b[i]);
      assert s[|a| + i] == b[i];
    }
    if HasText(a) {
      var i :| 0 <= i < |a| && !IsSpace(a[i]);
      assert s[i] == a[i];
    }
    if HasText(s) {
      var i :| 0 <= i < |s| && !IsSpace(s[i]);
      if i < |a| { assert a[i] == s[i]; } else { assert b[i - |a|] == s[i]; }
    }
  }

  /** `s.replace(/\n/g, ' ')` */
  function NewlinesToSpaces(s: string): (r: string)
    ensures |r| == |s| && '\n' !in r
    ensures forall i :: 0 <= i < |s| ==> (IsSpace(r[i]) <==> IsSpace(s[i]))
    ensures forall i :: 0 <= i < |s| && s[i] != '\n' ==> r[i] == s[i]
    ensures forall i :: 0 <= i < |s| && s[i] == '\n' ==> r[i] == ' '
  {
    seq(|s|, i requires 0 <= i < |s| => if s[i] == '\n' then ' ' else s[i])
  }

  const MaxContentLength: nat := 5000

  /** The cleaning chain: collapse white-space runs, replace newlines, trim, keep the first 5000 characters. */
  function CleanContent(text: string): string
  {
    var t := Tidied(text);
    t[..if |t| < MaxContentLength then |t| else MaxContentLength]
  }

  /** A trimmed string is empty exactly when the original has no text. */
  lemma TrimEmpty(s: string)
    ensures Trim(s) == [] <==> !HasText(s)
  {
    var r := Trim(s);
    var k :| 0 <= k <= |s| && PaddedAt(s, r, k);
    if r == [] {
      assert forall i :: 0 <= i < |s| ==> IsSpace(s[i]);
    } else {
      assert s[k] == r[0];
    }
  }

  /** The text the content is cut from: collapsed, newlines replaced, trimmed. */
  function Tidied(text: string): string
  {
    Trim(NewlinesToSpaces(CollapseWhitespace(text)))
  }

  /**
   * The cleaned content is at most 5000 characters long and is a prefix of the tidied text, all of
   * it when that is short enough.
   */
  lemma CleanContentBounds(text: string)
    ensures var c := CleanContent(text);
            |c| <= MaxContentLength && StartsWith(Tidied(text), c)
            && (|Tidied(text)| <= MaxContentLength ==> c == Tidied(text))
  {
  }

  lemma NoAdjacentSpacesSlice(s: string, i: nat, j: nat)
    requires NoAdjacentSpaces(s) && i <= j <= |s|
    ensures NoAdjacentSpaces(s[i..j])
  {
    var t := s[i..j];
    forall k | 0 < k < |t|
      ensures !SpacePair(t, k)
    {
      assert t[k - 1] == s[i + k - 1] && t[k] == s[i + k];
      assert !SpacePair(s, i + k);
    }
  }

  /** A prefix of a part of `s` has no newline and no pair of adjacent spaces when `s` has none. */
  lemma IncludedPrefixSpacing(s: string, t: string, n: nat)
    requires NoAdjacentSpaces(s) && '\n' !in s
    requires Includes(s, t) && n <= |t|
    ensures '\n' !in t[..n] && NoAdjacentSpaces(t[..n])
  {
    var c := t[..n];
    var k :| 0 <= k <= |s| - |t| && OccursAt(s, t, k);
    assert c == s[k..k + n];
    NoAdjacentSpacesSlice(s, k, k + n);
    PrefixIncluded(t, n);
    IncludesTransitive(s, t, c);
    if '\n' in c {
      IncludedChar(s, c, '\n');
    }
  }

  /** The cleaned content has no newline and no two adjacent white-space characters. */
  lemma CleanContentSpacing(text: string)
    ensures '\n' !in CleanContent(text) && NoAdjacentSpaces(CleanContent(text))
  {
    var collapsed := CollapseWhitespace(text);
    var spaced := NewlinesToSpaces(collapsed);
    assert NoAdjacentSpaces(spaced) by {
      forall k | 0 < k < |spaced|
        ensures !SpacePair(spaced, k)
      {
        assert !SpacePair(collapsed, k);
      }
    }
    var t := Trim(spaced);
    IncludedPrefixSpacing(spaced, t, if |t| < MaxContentLength then |t| else MaxContentLength);
  }

  /** The cleaned content is empty exactly when the source text is all white space. */
  lemma CleanContentEmpty(text: string)
    ensures CleanContent(text) == "" <==> !HasText(text)
  {
    var collapsed := CollapseWhitespace(text);
    var spaced := NewlinesToSpaces(collapsed);
    CollapseHasText(text);
    assert HasText(spaced) <==> HasText(collapsed) by {
      if HasText(collapsed) {
        var i :| 0 <= i < |collapsed| && !IsSpace(collapsed[i]);
        assert !IsSpace(spaced[i]);
      }
      if HasText(spaced) {
        var i :| 0 <= i < |spaced| && !IsSpace(spaced[i]);
        assert !IsSpace(collapsed[i]);
      }
    }
    TrimEmpty(spaced);
  }

  // ---------------------------------------------------------------------------------------
  // What the cleaning keeps

  /** The characters of `s` that are not white space, in order. */
  function NonSpace(s: string): (r: string)
    ensures |r| <= |s|
    ensures forall i :: 0 <= i < |r| ==> !IsSpace(r[i])
  {
    if s == [] then [] else (if IsSpace(s[0]) then [] else [s[0]]) + NonSpace(s[1..])
  }

  lemma {:induction false} NonSpaceAppend(a: string, b: string)
    ensures NonSpace(a + b) == NonSpace(a) + NonSpace(b)
  {
    if a == [] {
      assert a + b == b;
    } else {
      assert (a + b)[0] == a[0] && (a + b)[1..] == a[1..] + b;
      NonSpaceAppend(a[1..], b);
    }
  }

  lemma {:induction false} NonSpaceOfSpaces(s: string)
    requires forall i :: 0 <= i < |s| ==> IsSpace(s[i])
    ensures NonSpace(s) == []
  {
    if s != [] {
      NonSpaceOfSpaces(s[1..]);
    }
  }

  /** Two strings alike in where their white space is, and equal elsewhere, keep the same text. */
  lemma {:induction false} NonSpaceAlike(a: string, b: string)
    requires |a| == |b|
    requires forall i :: 0 <= i < |a| ==> (IsSpace(a[i]) <==> IsSpace(b[i]))
    requires forall i :: 0 <= i < |a| && !IsSpace(a[i]) ==> a[i] == b[i]
    ensures NonSpace(a) == NonSpace(b)
  {
    if a != [] {
      NonSpaceAlike(a[1..], b[1..]);
    }
  }

  /** Collapsing white-space runs keeps every other character, in order. */
  lemma {:induction false} CollapseKeepsText(s: string)
    ensures NonSpace(CollapseWhitespace(s)) == NonSpace(s)
    decreases |s|
  {
    if |s| >= 2 && IsSpace(s[0]) && IsSpace(s[1]) {
      var rest := TrimStart(s);
      var k := |s| - |rest|;
      CollapseKeepsText(rest);
      assert s == s[..k] + rest;
      RunKeepsText(s[..k], rest, CollapseWhitespace(rest));
    } else if |s| > 0 {
      CollapseKeepsText(s[1..]);
      assert [s[0]] + s[1..] == s;
      ConsKeepsText(s[0], s[1..], CollapseWhitespace(s[1..]));
    }
  }

  /** A run of white space in front, replaced by one space, leaves the text as it was. */
  lemma RunKeepsText(run: string, rest: string, out: string)
    requires forall i :: 0 <= i < |run| ==> IsSpace(run[i])
    requires NonSpace(out) == NonSpace(rest)
    ensures NonSpace(" " + out) == NonSpace(run + rest)
  {
    NonSpaceAppend(run, rest);
    NonSpaceOfSpaces(run);
    NonSpaceAppend(" ", out);
    NonSpaceOfSpaces(" ");
  }

  /** One character kept in front leaves the text as it was. */
  lemma ConsKeepsText(c: char, rest: string, out: string)
    requires NonSpace(out) == NonSpace(rest)
    ensures NonSpace([c] + out) == NonSpace([c] + rest)
  {
    NonSpaceAppend([c], out);
    NonSpaceAppend([c], rest);
  }

  /** Every character the collapse puts in place of a run is a plain space. */
  lemma {:induction false} CollapseAddsOnlySpaces(s: string)
    ensures forall c :: c in CollapseWhitespace(s) ==> c in s || c == ' '
    decreases |s|
  {
    if |s| >= 2 && IsSpace(s[0]) && IsSpace(s[1]) {
      var rest := TrimStart(s);
      var k := |s| - |rest|;
      CollapseAddsOnlySpaces(rest);
      forall c | c in rest
        ensures c in s
      {
        var j :| 0 <= j < |rest| && rest[j] == c;
        assert s[k + j] == c;
      }
    } else if |s| > 0 {
      CollapseAddsOnlySpaces(s[1..]);
      forall c | c in s[1..]
        ensures c in s
      {
        var j :| 0 <= j < |s| - 1 && s[1..][j] == c;
        assert s[j + 1] == c;
      }
    }
  }

  /** `a` and `b` can be joined without cutting a run of white space in two. */
  predicate NoRunCut(a: string, b: string)
  {
    a == [] || b == [] || !IsSpace(a[|a| - 1]) || !IsSpace(b[0])
  }

  /** The collapse works run by run: a string split between runs collapses part by part. */
  lemma {:induction false} CollapseAppend(a: string, b: string)
    requires NoRunCut(a, b)
    ensures CollapseWhitespace(a + b) == CollapseWhitespace(a) + CollapseWhitespace(b)
    decreases |a|
  {
    if a == [] {
      assert a + b == b;
    } else if b == [] {
      assert a + b == a;
    } else if |a + b| >= 2 && IsSpace(a[0]) && IsSpace((a + b)[1]) {
      if HasText(a) {
        var t := TrimStart(a);
        TrimmedRun(a);
        CollapseAppend(t, b);
        RunBeforeText(a, b, t);
      } else {
        RunBeforeNext(a, b);
      }
    } else {
      assert a == [a[0]] + a[1..] && (a + b)[1] == (a[1..] + b)[0];
      CollapseAppend(a[1..], b);
      KeptBeforeNext(a[0], a[1..], b, a + b);
    }
  }

  /** A run at the start of a string with text leaves a shorter string that ends as it did. */
  lemma TrimmedRun(a: string)
    requires HasText(a) && IsSpace(a[0])
    ensures var t := TrimStart(a); t != [] && |t| < |a| && t[|t| - 1] == a[|a| - 1]
  {
    var i :| 0 <= i < |a| && !IsSpace(a[i]);
  }

  /** The step of `CollapseAppend` where `a` opens with a run and has text after it. */
  lemma RunBeforeText(a: string, b: string, t: string)
    requires a != [] && b != [] && IsSpace(a[0]) && |a + b| >= 2 && IsSpace((a + b)[1]) && HasText(a)
    requires t == TrimStart(a)
    requires CollapseWhitespace(t + b) == CollapseWhitespace(t) + CollapseWhitespace(b)
    ensures CollapseWhitespace(a + b) == CollapseWhitespace(a) + CollapseWhitespace(b)
  {
    var s := a + b;
    assert s[0] == a[0];
    var i :| 0 <= i < |a| && !IsSpace(a[i]);
    assert |a| >= 2 && a[1] == s[1];
    TrimStartPastText(a, b);
    assert CollapseWhitespace(s) == " " + CollapseWhitespace(t + b);
    assert CollapseWhitespace(a) == " " + CollapseWhitespace(t);
    AppendAssoc(" ", CollapseWhitespace(t), CollapseWhitespace(b));
  }

  /** The step of `CollapseAppend` where `a` is all white space and `b` starts with text. */
  lemma RunBeforeNext(a: string, b: string)
    requires a != [] && b != [] && IsSpace(a[0]) && |a + b| >= 2 && IsSpace((a + b)[1]) && !HasText(a)
    requires NoRunCut(a, b)
    ensures CollapseWhitespace(a + b) == CollapseWhitespace(a) + CollapseWhitespace(b)
  {
    var s := a + b;
    assert s[0] == a[0];
    assert !IsSpace(b[0]);
    TrimStartPastSpaces(a, b);
    assert |a| >= 2;
    CollapseSpaces(a);
  }

  /** The step of `CollapseAppend` where the first character `c` is kept. */
  lemma KeptBeforeNext(c: char, x: string, b: string, s: string)
    requires b != [] && s == [c] + x + b
    requires !(IsSpace(c) && ((x != [] && IsSpace(x[0])) || (x == [] && IsSpace(b[0]))))
    requires CollapseWhitespace(x + b) == CollapseWhitespace(x) + CollapseWhitespace(b)
    ensures CollapseWhitespace(s) == CollapseWhitespace([c] + x) + CollapseWhitespace(b)
  {
    assert s[0] == c && s[1..] == x + b;
    KeptUnfold(s);
    assert ([c] + x)[1..] == x;
    KeptUnfold([c] + x);
    AppendAssoc([c], CollapseWhitespace(x), CollapseWhitespace(b));
  }

  /** A character that does not open a run of two is kept, and the collapse goes on after it. */
  lemma KeptUnfold(s: string)
    requires s != [] && !(|s| >= 2 && IsSpace(s[0]) && IsSpace(s[1]))
    ensures CollapseWhitespace(s) == [s[0]] + CollapseWhitespace(s[1..])
  {
  }

  /** Leading white space in front of text is cut exactly where the text starts. */
  lemma {:induction false} TrimStartPastText(a: string, b: string)
    requires HasText(a)
    ensures TrimStart(a + b) == TrimStart(a) + b
    decreases |a|
  {
    var s := a + b;
    assert s[0] == a[0];
    if IsSpace(a[0]) {
      var i :| 0 <= i < |a| && !IsSpace(a[i]);
      assert a[1..][i - 1] == a[i];
      assert s[1..] == a[1..] + b;
      TrimStartPastText(a[1..], b);
    }
  }

  /** White space in front of a string that does not start with white space is cut entirely. */
  lemma {:induction false} TrimStartPastSpaces(a: string, b: string)
    requires forall i :: 0 <= i < |a| ==> IsSpace(a[i])
    requires b == [] || !IsSpace(b[0])
    ensures TrimStart(a + b) == b
    decreases |a|
  {
    if a == [] {
      assert a + b == b;
    } else {
      assert (a + b)[0] == a[0] && (a + b)[1..] == a[1..] + b;
      TrimStartPastSpaces(a[1..], b);
    }
  }

  /** A run of two or more white-space characters becomes one space; a lone one is kept. */
  lemma CollapseSpaces(w: string)
    requires forall i :: 0 <= i < |w| ==> IsSpace(w[i])
    ensures CollapseWhitespace(w) == if |w| >= 2 then " " else w
  {
    if |w| >= 2 {
      TrimStartPastSpaces(w, []);
      assert w + [] == w;
    } else if |w| == 1 {
      assert w[1..] == [];
    }
  }

  /** A single character is kept as it is. */
  lemma CollapseOne(c: char)
    ensures CollapseWhitespace([c]) == [c]
  {
    assert [c][1..] == [];
  }

  /**
   * White space between two words: a run of two or more characters becomes
   * one space, a lone character (a tab included) is kept, and each word
   * collapses on its own.
   */
  lemma CollapseBetween(u: string, w: string, v: string)
    requires u != [] && !IsSpace(u[|u| - 1]) && v != [] && !IsSpace(v[0])
    requires forall i :: 0 <= i < |w| ==> IsSpace(w[i])
    ensures CollapseWhitespace(u + w + v)
         == CollapseWhitespace(u) + (if |w| >= 2 then " " else w) + CollapseWhitespace(v)
  {
    AppendAssoc(u, w, v);
    CollapseAppend(u, w + v);
    CollapseAppend(w, v);
    CollapseSpaces(w);
    AppendAssoc(CollapseWhitespace(u), CollapseWhitespace(w), CollapseWhitespace(v));
  }

  /** A string padded with white space has the same text as the string. */
  lemma PaddedKeepsText(s: string, r: string, k: nat)
    requires PaddedAt(s, r, k)
    ensures NonSpace(r) == NonSpace(s)
  {
    var before, after := s[..k], s[k + |r|..];
    assert r == s[k..k + |r|];
    assert s == before + r + after;
    NonSpaceAppend(before + r, after);
    NonSpaceAppend(before, r);
    assert forall i :: 0 <= i < |before| ==> before[i] == s[i];
    NonSpaceOfSpaces(before);
    assert forall i :: 0 <= i < |after| ==> after[i] == s[k + |r| + i];
    NonSpaceOfSpaces(after);
  }

  /** Trimming removes white space only. */
  lemma TrimKeepsText(s: string)
    ensures NonSpace(Trim(s)) == NonSpace(s)
  {
    var r := Trim(s);
    var k :| 0 <= k <= |s| && PaddedAt(s, r, k);
    PaddedKeepsText(s, r, k);
  }

  /** A prefix of a string with the text of `text` keeps a prefix of that text, and all of it when nothing is cut. */
  lemma PrefixKeepsText(text: string, t: string, n: nat)
    requires NonSpace(t) == NonSpace(text) && n <= |t|
    ensures StartsWith(NonSpace(text), NonSpace(t[..n]))
    ensures n == |t| ==> NonSpace(t[..n]) == NonSpace(text)
  {
    assert t == t[..n] + t[n..];
    NonSpaceAppend(t[..n], t[n..]);
  }

  /** The tidied text has exactly the page text's characters other than white space, in order. */
  lemma TidiedKeepsText(text: string)
    ensures NonSpace(Tidied(text)) == NonSpace(text)
  {
    var collapsed := CollapseWhitespace(text);
    CollapseKeepsText(text);
    NonSpaceAlike(collapsed, NewlinesToSpaces(collapsed));
    TrimKeepsText(NewlinesToSpaces(collapsed));
  }

  /**
   * The cleaned content keeps the page text's other characters in order: a prefix of them, and
   * all of them when the tidied text fits in 5000 characters.
   */
  lemma CleanContentKeepsText(text: string)
    ensures StartsWith(NonSpace(text), NonSpace(CleanContent(text)))
    ensures |Tidied(text)| <= MaxContentLength ==> NonSpace(CleanContent(text)) == NonSpace(text)
  {
    var t := Tidied(text);
    var n := if |t| < MaxContentLength then |t| else MaxContentLength;
    TidiedKeepsText(text);
    PrefixKeepsText(text, t, n);
  }

  // ---------------------------------------------------------------------------------------
  // scrapeURL

  /** The summary of a page that was read, at `url`, whose hostname is `base`. */
  function Summary(url: string, base: string, page: seq<Element>,
                   resolve: (string, Option<string>) -> Option<string>): SeoData
  {
    var anchors := Select(page, "a");
    SeoData(
      TextOf(Select(page, "title")),
      Description(page),
      HeadingTable(page),
      |LinksOfKind(anchors, url, base, resolve, Internal)|,
      |LinksOfKind(anchors, url, base, resolve, External)|,
      ImageAltTags(page),
      CleanContent(ContentSource(page)),
      url,
      SpeedIndicator(|Select(page, "img")|, |Select(page, "script")|,
                     |WithAttr(Select(page, "link"), "rel", "stylesheet")|),
      false)
  }

  /**
   * What `scrapeURL` returns: the restricted record when the fetch throws, on 401 and 403, and
   * when the URL itself does not parse; that record with a changed title and content for any other
   * status that is not ok; the page summary otherwise.
   */
  function Scrape(url: string, fetched: FetchOutcome, resolve: (string, Option<string>) -> Option<string>): SeoData
  {
    match fetched
    case FetchFailed => Restricted(url)
    case Responded(status, page) =>
      if status == 403 || status == 401 then Restricted(url)
      else if !IsOk(status) then Restricted(url).(title := "Connection Limited", content := StatusContent(status))
      else
        match resolve(url, None)
        case None => Restricted(url)
        case Some(base) => Summary(url, base, page, resolve)
  }

  /** `scrapeURL` once the fetch has answered. */
  method ScrapeUrl(url: string, fetched: FetchOutcome, resolve: (string, Option<string>) -> Option<string>)
    returns (d: SeoData)
    ensures d == Scrape(url, fetched, resolve)
  {
    var restricted := Restricted(url);
    if fetched.FetchFailed? {
      return restricted;
    }
    var status := fetched.status;
    if status == 403 || status == 401 {
      return restricted;
    }
    if !IsOk(status) {
      return restricted.(title := "Connection Limited", content := StatusContent(status));
    }
    var page := fetched.page;
    var title := TextOf(Select(page, "title"));
    var description := Description(page);
    var headings := CollectHeadings(page);
    var base := resolve(url, None);
    if base.None? {
      return restricted;
    }
    var internal, external := CollectLinks(Select(page, "a"), url, base.value, resolve);
    var images := ImageAltTags(page);
    var content := CleanContent(ContentSource(page));
    d := SeoData(title, description, headings, |internal|, |external|, images, content, url,
                 SpeedIndicator(|Select(page, "img")|, |Select(page, "script")|,
                                |WithAttr(Select(page, "link"), "rel", "stylesheet")|),
                 false);
  }

  // ---------------------------------------------------------------------------------------
  // Properties of scrapeURL

  /** A page that was not read gives the restricted record: on a failed fetch, on 401 and 403, and on a URL that does not parse. */
  lemma RestrictedPaths(url: string, fetched: FetchOutcome, resolve: (string, Option<string>) -> Option<string>)
    requires || fetched.FetchFailed?
             || fetched.status == 401 || fetched.status == 403
             || (IsOk(fetched.status) && resolve(url, None).None?)
    ensures Scrape(url, fetched, resolve) == Restricted(url)
    ensures Scrape(url, fetched, resolve).title == "Access Restricted"
    ensures Scrape(url, fetched, resolve).content == "Access restricted"
  {
  }

  /**
   * Any other status that is not ok changes only the title and the content of the restricted
   * record, and the content names the status.
   */
  lemma ConnectionLimited(url: string, status: nat, page: seq<Element>,
                          resolve: (string, Option<string>) -> Option<string>)
    requires !IsOk(status) && status != 401 && status != 403
    ensures var d := Scrape(url, Responded(status, page), resolve);
            && d.title == "Connection Limited"
            && Includes(d.content, DecimalString(status))
            && d.(title := Restricted(url).title, content := Restricted(url).content) == Restricted(url)
  {
    StatusContentNamesStatus(status);
  }

  /**
   * On every path the record keeps the URL, and it is marked simulated exactly when the page was
   * not read; a simulated record counts no link, no heading and no image.
   */
  lemma SimulatedExactlyWhenUnread(url: string, fetched: FetchOutcome,
                                   resolve: (string, Option<string>) -> Option<string>)
    ensures var d := Scrape(url, fetched, resolve);
            && d.url == url
            && (!d.isSimulated <==> fetched.Responded? && IsOk(fetched.status) && resolve(url, None).Some?)
            && (d.isSimulated ==>
                  d.headings == map[] && d.internalLinks == 0 && d.externalLinks == 0
                  && d.imageAltTags == [] && d.loadSpeedIndicator == SpeedIndicator(0, 0, 0))
  {
  }

  /** A page that was read, at a URL that parses, gives its summary. */
  lemma ReadPageSummarised(url: string, status: nat, page: seq<Element>,
                           resolve: (string, Option<string>) -> Option<string>)
    requires IsOk(status) && resolve(url, None).Some?
    ensures Scrape(url, Responded(status, page), resolve) == Summary(url, resolve(url, None).value, page, resolve)
    ensures !Scrape(url, Responded(status, page), resolve).isSimulated
  {
  }

  /**
   * A summary has the six heading levels, at most as many counted links as anchors, and one image
   * entry per image, so as many as the image count.
   */
  lemma SummaryShape(url: string, base: string, page: seq<Element>,
                     resolve: (string, Option<string>) -> Option<string>)
    ensures var d := Summary(url, base, page, resolve);
            && d.headings.Keys == {"h1", "h2", "h3", "h4", "h5", "h6"}
            && d.internalLinks + d.externalLinks <= |Select(page, "a")|
            && |d.imageAltTags| == d.loadSpeedIndicator.imageCount
  {
    HeadingKeys(page);
    LinkTotals(Select(page, "a"), url, base, resolve);
  }

  /**
   * A link's hostname is compared with the page's as a whole string: when the page's hostname is
   * itself empty, a link that resolves to an empty hostname is counted as internal.
   */
  lemma EmptyHostnameOnEmptyBase(url: string, href: string, resolve: (string, Option<string>) -> Option<string>)
    requires href != "" && resolve(href, Some(url)) == Some("")
    ensures ClassifyLink(Some(href), url, "", resolve) == Internal
    ensures forall base :: base != "" ==> ClassifyLink(Some(href), url, base, resolve) == Ignored
  {
  }
}
