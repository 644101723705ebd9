/**
 * PDF-link discovery on a notice page (`get_pdf_links`).
 *
 * The HTML parser is not modelled: a page is the sequence of its anchors that
 * carry an `href`, each given as the `href` value and the anchor's visible text
 * already stripped of surrounding whitespace.
 */
module PdfLinks {
  import opened Wrappers

  /** An `<a href=...>` element: its target and its stripped visible text. */
  datatype Anchor = Anchor(href: string, text: string)

  /** One discovered attachment: the label shown to the user and its absolute URL. */
  datatype PdfLink = PdfLink(name: string, url: string)

  /** The university's host, prefixed to root-relative targets. */
  const Host: string := "https://www.kw.ac.kr"

  /** The fixed base path prefixed to bare relative targets. */
  const ServiceBase: string := "https://www.kw.ac.kr/kw_service/"

  /** The label used for an anchor without visible text. */
  const Placeholder: string := "이름 없는 PDF"

  predicate StartsWith(s: string, prefix: string) {
    prefix <= s
  }

  predicate EndsWith(s: string, suffix: string) {
    |suffix| <= |s| && s[|s| - |suffix|..] == suffix
  }

  /** Lower-cases one ASCII letter; every other character is left as it is. */
  function LowerChar(c: char): char {
    if 'A' <= c <= 'Z' then (c as int + 32) as char else c
  }

  /** Lower-cases a string: no upper-case ASCII letter is left, and every other character stays. */
  function Lower(s: string): (r: string)
    ensures |r| == |s|
    ensures forall i :: 0 <= i < |r| ==> !('A' <= r[i] <= 'Z')
    ensures forall i :: 0 <= i < |s| && !('A' <= s[i] <= 'Z') ==> r[i] == s[i]
  {
    seq(|s|, i requires 0 <= i < |s| => LowerChar(s[i]))
  }

  /** Lower-casing twice is lower-casing once. */
  lemma {:induction false} LowerIdempotent(s: string)
    ensures Lower(Lower(s)) == Lower(s)
  {
    var r := Lower(s);
    assert forall i :: 0 <= i < |r| ==> Lower(r)[i] == r[i];
  }

  /** Lower-casing works character by character, so it distributes over concatenation. */
  lemma {:induction false} LowerAppend(a: string, b: string)
    ensures Lower(a + b) == Lower(a) + Lower(b)
  {
    assert forall i :: 0 <= i < |a + b| ==> Lower(a + b)[i] == (Lower(a) + Lower(b))[i];
  }

  /** The selection test: the lower-cased target ends in ".pdf". */
  predicate IsPdfHref(href: string) {
    EndsWith(Lower(href), ".pdf")
  }

  /**
   * The normalisation of a target to an absolute URL. The scheme test is on
   * the bare prefix "http", so "httpdocs/a.pdf" is kept unchanged, while a
   * target beginning with "HTTP" is treated as relative.
   */
  function AbsoluteUrl(href: string): (url: string)
    ensures StartsWith(url, "http")
    ensures EndsWith(url, href)
    ensures url == href <==> StartsWith(href, "http")
    ensures !StartsWith(href, "http") ==> StartsWith(url, Host + "/")
  {
    if StartsWith(href, "http") then href
    else if StartsWith(href, "/") then Host + href
    else ServiceBase + href
  }

  /** The label of a discovered link: the anchor text, or the placeholder when it is empty. */
  function Label(text: string): (name: string)
    ensures name != ""
    ensures name == text <==> text != ""
  {
    if text == "" then Placeholder else text
  }

  /** The entry recorded for one selected anchor. */
  function Entry(a: Anchor): PdfLink {
    PdfLink(Label(a.text), AbsoluteUrl(a.href))
  }

  /**
   * The links `get_pdf_links` returns for a page's anchors, defined over the
   * anchors seen so far, as the loop visits them.
   */
  function Select(anchors: seq<Anchor>): seq<PdfLink> {
    if anchors == [] then []
    else
      var last := anchors[|anchors| - 1];
      Select(anchors[..|anchors| - 1]) + (if IsPdfHref(last.href) then [Entry(last)] else [])
  }

  /** The positions of the selected anchors, in page order. */
  function Origins(anchors: seq<Anchor>): seq<nat> {
    if anchors == [] then []
    else
      var n := |anchors| - 1;
      Origins(anchors[..n]) + (if IsPdfHref(anchors[n].href) then [n] else [])
  }

  predicate StrictlyIncreasing(s: seq<nat>) {
    forall i, j :: 0 <= i < j < |s| ==> s[i] < s[j]
  }

  /**
   * `get_pdf_links` after the page has been fetched and parsed: the loop of
   * lines 46-61. A failed fetch or parse (`None`) gives the empty list.
   */
  method GetPdfLinks(page: Option<seq<Anchor>>) returns (pdfList: seq<PdfLink>)
    ensures page.None? ==> pdfList == []
    ensures page.Some? ==> pdfList == Select(page.value)
  {
    if page.None? {
      return [];
    }
    var anchors := page.value;
    pdfList := [];
    for i := 0 to |anchors|
      invariant pdfList == Select(anchors[..i])
    {
      assert anchors[..i + 1][..i] == anchors[..i];
      var aTag := anchors[i];
      if IsPdfHref(aTag.href) {
        var fileUrl := aTag.href;
        if !StartsWith(fileUrl, "http") {
          if StartsWith(fileUrl, "/") {
            fileUrl := Host + fileUrl;
          } else {
            fileUrl := ServiceBase + fileUrl;
          }
        }
        pdfList := pdfList + [PdfLink(Label(aTag.text), fileUrl)];
      }
    }
    assert anchors[..|anchors|] == anchors;
  }

  // ---------------------------------------------------------------------------
  // Properties of the selection
  // ---------------------------------------------------------------------------

  /** The positions of selected anchors are exactly the positions of anchors with a ".pdf" target, increasing. */
  lemma {:induction false} OriginsExact(anchors: seq<Anchor>)
    ensures StrictlyIncreasing(Origins(anchors))
    ensures forall k :: 0 <= k < |Origins(anchors)| ==> Origins(anchors)[k] < |anchors|
    ensures forall i :: 0 <= i < |anchors| ==> (i in Origins(anchors) <==> IsPdfHref(anchors[i].href))
  {
    if anchors != [] {
      var n := |anchors| - 1;
      var init := anchors[..n];
      OriginsExact(init);
      assert forall i :: 0 <= i < n ==> init[i] == anchors[i];
    }
  }

  /** Entry k of the result is built from the anchor at the k-th selected position. */
  lemma {:induction false} SelectAtOrigins(anchors: seq<Anchor>)
    ensures |Select(anchors)| == |Origins(anchors)|
    ensures forall k :: 0 <= k < |Select(anchors)| ==>
      Origins(anchors)[k] < |anchors| && Select(anchors)[k] == Entry(anchors[Origins(anchors)[k]])
  {
    if anchors != [] {
      var n := |anchors| - 1;
      var init := anchors[..n];
      SelectAtOrigins(init);
      OriginsExact(init);
      assert forall k :: 0 <= k < |Origins(init)| ==> init[Origins(init)[k]] == anchors[Origins(init)[k]];
    }
  }

  /**
   * The selection characterised without the loop: the result lists, in page
   * order and with repetitions, one entry per anchor whose target ends in
   * ".pdf", and nothing else.
   */
  lemma {:induction false} SelectCharacterised(anchors: seq<Anchor>)
    ensures |Select(anchors)| == |Origins(anchors)|
    ensures StrictlyIncreasing(Origins(anchors))
    ensures forall i :: 0 <= i < |anchors| ==> (i in Origins(anchors) <==> IsPdfHref(anchors[i].href))
    ensures forall k :: 0 <= k < |Select(anchors)| ==>
      Origins(anchors)[k] < |anchors| && Select(anchors)[k] == Entry(anchors[Origins(anchors)[k]])
  {
    OriginsExact(anchors);
    SelectAtOrigins(anchors);
  }

  /** Selecting over two runs of anchors is selecting over each: order is kept and nothing is deduplicated. */
  lemma {:induction false} SelectAppend(a: seq<Anchor>, b: seq<Anchor>)
    ensures Select(a + b) == Select(a) + Select(b)
  {
    if b == [] {
      assert a + b == a;
    } else {
      var n := |b| - 1;
      SelectAppend(a, b[..n]);
      assert (a + b)[..|a + b| - 1] == a + b[..n];
      assert (a + b)[|a + b| - 1] == b[n];
    }
  }

  /** The result is empty exactly when no anchor has a ".pdf" target (the "no PDF found" case of the page). */
  lemma {:induction false} SelectEmptyIff(anchors: seq<Anchor>)
    ensures Select(anchors) == [] <==> forall i :: 0 <= i < |anchors| ==> !IsPdfHref(anchors[i].href)
  {
    SelectCharacterised(anchors);
    if Select(anchors) != [] {
      assert Origins(anchors)[0] in Origins(anchors);
    }
    forall i | 0 <= i < |anchors| && IsPdfHref(anchors[i].href) ensures Select(anchors) != [] {
      assert i in Origins(anchors);
    }
  }

  /** A ".pdf" target stays a ".pdf" target when a prefix is put in front of it. */
  lemma PdfSuffixKept(url: string, href: string)
    requires EndsWith(url, href) && IsPdfHref(href)
    ensures IsPdfHref(url)
  {
    var front := url[..|url| - |href|];
    assert url == front + href;
    LowerAppend(front, href);
    var lu, lh := Lower(url), Lower(href);
    assert lu[|lu| - 4..] == lh[|lh| - 4..];
  }

  /**
   * Every entry the page yields has an absolute "http" URL that still ends in
   * ".pdf", and a non-empty label.
   */
  lemma {:induction false} SelectedLinksWellFormed(anchors: seq<Anchor>)
    ensures forall l :: l in Select(anchors) ==>
      StartsWith(l.url, "http") && IsPdfHref(l.url) && l.name != ""
  {
    SelectCharacterised(anchors);
    forall l | l in Select(anchors)
      ensures StartsWith(l.url, "http") && IsPdfHref(l.url) && l.name != ""
    {
      var k :| 0 <= k < |Select(anchors)| && Select(anchors)[k] == l;
      var a := anchors[Origins(anchors)[k]];
      assert IsPdfHref(a.href);
      PdfSuffixKept(AbsoluteUrl(a.href), a.href);
    }
  }

  /** The selection test character by character: a '.', then "pdf" in any case. */
  lemma PdfHrefByCharacters(href: string)
    ensures IsPdfHref(href) <==>
      |href| >= 4 && href[|href| - 4] == '.' && LowerChar(href[|href| - 3]) == 'p'
      && LowerChar(href[|href| - 2]) == 'd' && LowerChar(href[|href| - 1]) == 'f'
  {
    var l := Lower(href);
    if |href| >= 4 {
      assert LowerChar(href[|href| - 4]) == '.' <==> href[|href| - 4] == '.';
      assert l[|l| - 4..] == [l[|l| - 4], l[|l| - 3], l[|l| - 2], l[|l| - 1]];
    }
  }

  /** A target with a ".pdf" suffix behind a prefix ending in 'r' or '/' already had that suffix. */
  lemma PdfSuffixBehindPrefix(p: string, h: string)
    requires p != [] && (p[|p| - 1] == 'r' || p[|p| - 1] == '/')
    requires IsPdfHref(p + h)
    ensures IsPdfHref(h)
  {
    var s := p + h;
    PdfHrefByCharacters(s);
    if |h| < 4 {
      assert false;
    }
    PdfHrefByCharacters(h);
    assert s[|s| - 4..] == h[|h| - 4..];
  }

  /** Normalisation neither creates nor destroys a ".pdf" suffix. */
  lemma AbsoluteUrlKeepsPdf(href: string)
    ensures IsPdfHref(AbsoluteUrl(href)) <==> IsPdfHref(href)
  {
    var url := AbsoluteUrl(href);
    if IsPdfHref(href) {
      PdfSuffixKept(url, href);
    }
    if IsPdfHref(url) && !StartsWith(href, "http") {
      var p := if StartsWith(href, "/") then Host else ServiceBase;
      assert url == p + href;
      PdfSuffixBehindPrefix(p, href);
    }
  }

  /** A target that already carries a scheme is kept as it is. */
  lemma AbsoluteUrlFullExample()
    ensures AbsoluteUrl("http://x.org/a.pdf") == "http://x.org/a.pdf"
  {
  }

  /** A root-relative target is put directly behind the host. */
  lemma AbsoluteUrlRootRelativeExample()
    ensures AbsoluteUrl("/docs/file.pdf") == "https://www.kw.ac.kr/docs/file.pdf"
  {
    assert "/docs/file.pdf"[0] != "http"[0];
  }

  /** A bare relative target is put behind the fixed service path. */
  lemma AbsoluteUrlBareExample()
    ensures AbsoluteUrl("file.pdf") == "https://www.kw.ac.kr/kw_service/file.pdf"
  {
    assert "file.pdf"[0] != "http"[0];
  }

  /** The scheme test is on the bare letters "http": a relative path that begins with them is kept. */
  lemma AbsoluteUrlBareHttpQuirk()
    ensures AbsoluteUrl("httpdocs/a.pdf") == "httpdocs/a.pdf"
  {
    assert StartsWith("httpdocs/a.pdf", "http") by {
      assert "httpdocs/a.pdf"[..4] == "http";
    }
  }

  /** The scheme test is case-sensitive: an upper-case scheme is treated as a bare relative path. */
  lemma AbsoluteUrlUpperCaseQuirk()
    ensures AbsoluteUrl("HTTP://x/a.pdf") == "https://www.kw.ac.kr/kw_service/HTTP://x/a.pdf"
  {
    assert "HTTP://x/a.pdf"[0] != "http"[0];
  }

  /** Three anchors, of which the first two have ".pdf" targets, give the first two entries. */
  lemma SelectOfThree(a1: Anchor, a2: Anchor, a3: Anchor)
    requires IsPdfHref(a1.href) && IsPdfHref(a2.href) && !IsPdfHref(a3.href)
    ensures Select([a1, a2, a3]) == [Entry(a1), Entry(a2)]
  {
    assert [a1, a2, a3][..2] == [a1, a2];
    assert [a1, a2][..1] == [a1];
    assert [a1][..0] == [];
    assert Select([a1]) == [Entry(a1)];
    assert Select([a1, a2]) == [Entry(a1), Entry(a2)];
  }

  lemma ExampleTargets()
    ensures IsPdfHref("/a/b.pdf") && IsPdfHref("c.PDF") && !IsPdfHref("x.html")
  {
    PdfHrefByCharacters("/a/b.pdf");
    PdfHrefByCharacters("c.PDF");
    PdfHrefByCharacters("x.html");
  }

  lemma ExampleEntries()
    ensures Entry(Anchor("/a/b.pdf", "Notice 1")) == PdfLink("Notice 1", "https://www.kw.ac.kr/a/b.pdf")
    ensures Entry(Anchor("c.PDF", "")) == PdfLink(Placeholder, "https://www.kw.ac.kr/kw_service/c.PDF")
  {
    assert "/a/b.pdf"[0] != "http"[0];
    assert "c.PDF"[0] != "http"[0] && "c.PDF"[0] != '/';
  }

  /** A page with a root-relative attachment, a bare relative one without text, and an HTML link. */
  lemma SelectExample()
    ensures Select([Anchor("/a/b.pdf", "Notice 1"), Anchor("c.PDF", ""), Anchor("x.html", "Other")])
         == [PdfLink("Notice 1", "https://www.kw.ac.kr/a/b.pdf"),
             PdfLink(Placeholder, "https://www.kw.ac.kr/kw_service/c.PDF")]
  {
    ExampleTargets();
    ExampleEntries();
    SelectOfThree(Anchor("/a/b.pdf", "Notice 1"), Anchor("c.PDF", ""), Anchor("x.html", "Other"));
  }
}
