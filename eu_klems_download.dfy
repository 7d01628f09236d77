/** Picking the download links of one country from the EU KLEMS download page.
    The page is abstracted as its sequence of anchor tags, each with its text
    and its href attribute. */
module EuKlemsDownload {
  import opened Wrappers
  import opened Text

  /** An anchor tag: its text (None when the tag has no single text child) and its href. */
  datatype Link = Link(text: Option<string>, href: Option<string>)

  /** The characters `str.strip("?dl=1")` removes from both ends. */
  const StrippedChars: set<char> := {'?', 'd', 'l', '=', '1'}

  /** Some name of `names` occurs in `text`. */
  predicate AnyContained(text: string, names: seq<string>) {
    names != [] && (Contains(text, names[0]) || AnyContained(text, names[1..]))
  }

  /** `_links_names`: the alternation of the file names, searched in a link's text.
      An empty alternation matches every text. */
  function LinkNameMatches(text: string, names: seq<string>): (r: bool)
    ensures r <==> names == [] || exists i :: 0 <= i < |names| && Contains(text, names[i])
  {
    AnyContainedExists(text, names);
    names == [] || AnyContained(text, names)
  }

  lemma {:induction false} AnyContainedExists(text: string, names: seq<string>)
    ensures AnyContained(text, names) <==> exists i :: 0 <= i < |names| && Contains(text, names[i])
  {
    if names != [] {
      AnyContainedExists(text, names[1..]);
      if exists i :: 0 <= i < |names| && Contains(text, names[i]) {
        var i :| 0 <= i < |names| && Contains(text, names[i]);
        if i > 0 { assert names[1..][i - 1] == names[i]; }
      }
    }
  }

  /** `page.find_all("a", string=_links_names())`: the links whose text matches, in page order. */
  function FindAll(links: seq<Link>, names: seq<string>): (r: seq<Link>)
    ensures forall l {:trigger l in r} :: l in r <==> l in links && l.text.Some? && LinkNameMatches(l.text.value, names)
  {
    if links == [] then []
    else
      (if links[0].text.Some? && LinkNameMatches(links[0].text.value, names) then [links[0]] else [])
      + FindAll(links[1..], names)
  }

  /** `find_all` keeps page order: the links found on a page split at any point are the links
      found on its first part followed by those found on the rest. */
  lemma {:induction false} FindAllAppend(a: seq<Link>, b: seq<Link>, names: seq<string>)
    ensures FindAll(a + b, names) == FindAll(a, names) + FindAll(b, names)
  {
    if a == [] {
      assert a + b == b;
    } else {
      var l := a[0];
      assert a == [l] + a[1..];
      assert a + b == [l] + (a[1..] + b);
      FindAllCons(l, a[1..] + b, names);
      FindAllAppend(a[1..], b, names);
      FindAllCons(l, a[1..], names);
    }
  }

  /** The links found after a first link are those found in the rest of the page. */
  lemma FindAllCons(l: Link, rest: seq<Link>, names: seq<string>)
    ensures FindAll([l] + rest, names) == FindAll([l], names) + FindAll(rest, names)
  {
    assert ([l] + rest)[1..] == rest;
    assert [l][1..] == [];
  }

  /** A single link is found iff its text matches one of the names. */
  lemma FindAllSingle(l: Link, names: seq<string>)
    ensures FindAll([l], names) == if l.text.Some? && LinkNameMatches(l.text.value, names) then [l] else []
  {
    assert [l][1..] == [];
  }

  /** `_extract_file_name_from_href`: the text between the first and second occurrence of the
      country code, stripped of the characters "?dl=1" at both ends, without its first
      character, with every "%20" replaced by "_". */
  function ExtractFileNameFromHref(href: string, countryCode: string): (r: Result<string>)
    ensures r.Ok? <==> countryCode != [] && Contains(href, countryCode)
    ensures countryCode == [] ==> r == Err(EmptySeparator)
    ensures countryCode != [] && !Contains(href, countryCode) ==> r == Err(IndexOutOfRange)
    ensures r.Ok? ==> !Contains(r.value, "%20")
  {
    match SplitSecond(href, countryCode)
    case Err(e) => Err(e)
    case Ok(piece) =>
      var stripped := Strip(piece, StrippedChars);
      var rest := if stripped == [] then [] else stripped[1..];
      ReplacePercent20Complete(rest);
      Ok(ReplaceAll(rest, "%20", "_"))
  }

  /** An href of the form <head><code>_<p>%20<q>?dl=1 names the file <p>_<q>. */
  lemma ExtractSimpleHref(head: string, countryCode: string, p: string, q: string)
    requires countryCode != []
    requires countryCode[0] !in head && countryCode[0] !in p && countryCode[0] !in q
    requires countryCode[0] !in "_%20?dl=1"
    requires '%' !in p && '%' !in q && q != [] && q[|q| - 1] !in StrippedChars
    ensures ExtractFileNameFromHref(head + countryCode + "_" + p + "%20" + q + "?dl=1", countryCode)
            == Ok(p + "_" + q)
  {
    var body := p + "%20" + q;
    var stripped := "_" + body;
    var tail := stripped + "?dl=1";
    SplitSimpleHref(head, countryCode, p, q);
    assert stripped[|stripped| - 1] == q[|q| - 1];
    StripSuffix(stripped, tail);
    assert stripped[1..] == body;
    ReplaceSingle(p, q);
    ExtractFromParts(head + countryCode + "_" + p + "%20" + q + "?dl=1", countryCode, tail, stripped, p + "_" + q);
  }

  lemma SplitSimpleHref(head: string, countryCode: string, p: string, q: string)
    requires countryCode != []
    requires countryCode[0] !in head && countryCode[0] !in p && countryCode[0] !in q
    requires countryCode[0] !in "_%20?dl=1"
    ensures SplitSecond(head + countryCode + "_" + p + "%20" + q + "?dl=1", countryCode)
            == Ok("_" + (p + "%20" + q) + "?dl=1")
  {
    var tail := "_" + (p + "%20" + q) + "?dl=1";
    assert head + countryCode + "_" + p + "%20" + q + "?dl=1" == head + countryCode + tail;
    FirstCharAbsent(countryCode[0], p, q);
    assert tail == "_" + p + "%20" + q + "?dl=1";
    SplitSecondSingle(head, countryCode, tail);
  }

  /** `_extract_file_name_from_href` composed from its three steps. */
  lemma ExtractFromParts(href: string, countryCode: string, piece: string, stripped: string, name: string)
    requires SplitSecond(href, countryCode) == Ok(piece)
    requires Strip(piece, StrippedChars) == stripped && stripped != []
    requires ReplaceAll(stripped[1..], "%20", "_") == name
    ensures ExtractFileNameFromHref(href, countryCode) == Ok(name)
  {
  }

  lemma FirstCharAbsent(c: char, p: string, q: string)
    requires c !in p && c !in q && c !in "_%20?dl=1"
    ensures c !in "_" + p + "%20" + q + "?dl=1"
  {
    var t := "_" + p + "%20" + q + "?dl=1";
    forall i | 0 <= i < |t| ensures t[i] != c {
      if i == 0 {
      } else if i < 1 + |p| {
        assert t[i] == p[i - 1];
      } else if i < 4 + |p| {
        assert t[i] == "%20"[i - 1 - |p|];
      } else if i < 4 + |p| + |q| {
        assert t[i] == q[i - 4 - |p|];
      } else {
        assert t[i] == "?dl=1"[i - 4 - |p| - |q|];
      }
    }
  }

  /** Splitting on a separator that occurs once, and whose first character occurs nowhere else. */
  lemma SplitSecondSingle(head: string, sep: string, tail: string)
    requires sep != [] && sep[0] !in head && sep[0] !in tail
    ensures SplitSecond(head + sep + tail, sep) == Ok(tail)
  {
    var s := head + sep + tail;
    FindAfterFree(head, sep, tail);
    assert s[|head| + |sep|..] == tail;
    NotContainedFree(tail, sep);
  }

  /** Stripping "?dl=1" off a name that neither starts nor ends with a stripped character. */
  lemma StripSuffix(stripped: string, tail: string)
    requires stripped != [] && stripped[0] !in StrippedChars && stripped[|stripped| - 1] !in StrippedChars
    requires tail == stripped + "?dl=1"
    ensures Strip(tail, StrippedChars) == stripped
  {
    TrailingStartAppend(stripped, "?dl=1", StrippedChars);
    assert LeadingCount(tail, StrippedChars) == 0;
    assert tail[0..] == tail;
    assert tail[0..|stripped|] == stripped;
  }

  /** The parts of the documented example href. */
  const DocHead: string := "https://www.dropbox.com/s/5usiqokdj2orzlv/"
  const DocStem: string := "intangible"
  const DocRest: string := "analytical.xlsx"

  lemma DocHrefParts(href: string)
    requires href == "https://www.dropbox.com/s/5usiqokdj2orzlv/SK_intangible%20analytical.xlsx?dl=1"
    ensures href == DocHead + "SK" + "_" + DocStem + "%20" + DocRest + "?dl=1"
  {
  }

  lemma DocPartsChars()
    ensures 'S' !in DocHead && 'S' !in DocStem && 'S' !in DocRest && 'S' !in "_%20?dl=1"
    ensures '%' !in DocStem && '%' !in DocRest && DocRest[|DocRest| - 1] !in StrippedChars
    ensures DocStem + "_" + DocRest == "intangible_analytical.xlsx"
  {
    DocHeadFree();
    DocNameParts();
  }

  /** The country code's first letter does not occur in the link's directory part. */
  lemma DocHeadFree()
    ensures 'S' !in DocHead
  {
  }

  /** The stem and the rest of the example name. */
  lemma DocNameParts()
    ensures 'S' !in DocStem && 'S' !in DocRest && '%' !in DocStem && '%' !in DocRest
    ensures DocStem + "_" + DocRest == "intangible_analytical.xlsx"
  {
  }

  /** The example of the function's documentation. */
  lemma ExtractFileNameExample(href: string)
    requires href == "https://www.dropbox.com/s/5usiqokdj2orzlv/SK_intangible%20analytical.xlsx?dl=1"
    ensures ExtractFileNameFromHref(href, "SK") == Ok("intangible_analytical.xlsx")
  {
    DocHrefParts(href);
    DocPartsChars();
    ExtractSimpleHref(DocHead, "SK", DocStem, DocRest);
  }

  /** `Find` locates `sub` right after a prefix that does not hold its first character. */
  lemma {:induction false} FindAfterFree(p: string, sub: string, q: string)
    requires sub != [] && sub[0] !in p
    ensures Find(p + sub + q, sub) == Some(|p|)
  {
    var s := p + sub + q;
    if p == [] {
      assert s == sub + q;
    } else {
      assert s[0] == p[0] != sub[0];
      assert s[1..] == p[1..] + sub + q;
      FindAfterFree(p[1..], sub, q);
    }
  }

  /** A string that does not hold the first character of `sub` does not contain `sub`. */
  lemma {:induction false} NotContainedFree(s: string, sub: string)
    requires sub != [] && sub[0] !in s
    ensures !Contains(s, sub)
  {
    if s != [] {
      assert s[0] != sub[0];
      NotContainedFree(s[1..], sub);
    }
  }

  /** Stripping a tail made only of stripped characters stops at the last other character. */
  lemma {:induction false} TrailingStartAppend(s: string, t: string, chars: set<char>)
    requires forall c :: c in t ==> c in chars
    requires s == [] || s[|s| - 1] !in chars
    ensures TrailingStart(s + t, chars) == |s|
    decreases |t|
  {
    if t == [] {
      assert s + t == s;
    } else {
      assert (s + t)[|s + t| - 1] == t[|t| - 1];
      assert (s + t)[..|s + t| - 1] == s + t[..|t| - 1];
      assert forall c :: c in t[..|t| - 1] ==> c in t;
      TrailingStartAppend(s, t[..|t| - 1], chars);
    }
  }

  /** One "%20" between two '%'-free strings becomes "_". */
  lemma ReplaceSingle(p: string, q: string)
    requires '%' !in p && '%' !in q
    ensures ReplaceAll(p + "%20" + q, "%20", "_") == p + "_" + q
  {
    assert p + "%20" + q == p + ("%20" + q);
    NoPercent20Prefix(p, "%20" + q);
    assert ("%20" + q)[3..] == q;
    NoPercent20Replace(q);
  }

  /** Replacement leaves a string without '%' unchanged. */
  lemma {:induction false} NoPercent20Replace(s: string)
    requires '%' !in s
    ensures ReplaceAll(s, "%20", "_") == s
  {
    if s != [] {
      assert !("%20" <= s) by { assert s[0] != '%'; }
      assert s == [s[0]] + s[1..];
      NoPercent20Replace(s[1..]);
    }
  }

  /** Replacement copies a '%'-free prefix unchanged. */
  lemma {:induction false} NoPercent20Prefix(p: string, t: string)
    requires '%' !in p
    ensures ReplaceAll(p + t, "%20", "_") == p + ReplaceAll(t, "%20", "_")
  {
    if p != [] {
      var s := p + t;
      assert s[0] == p[0] && p == [p[0]] + p[1..];
      assert !("%20" <= s) by { assert s[0] != '%'; }
      assert s[1..] == p[1..] + t;
      NoPercent20Prefix(p[1..], t);
    } else {
      assert p + t == t;
    }
  }

  /** The hrefs the filter keeps: present, not a page anchor, and containing the country code. */
  predicate Kept(link: Link, countryCode: string) {
    link.href.Some? && !("#" <= link.href.value) && Contains(link.href.value, countryCode)
  }

  /** The hrefs of the kept links, in page order. */
  function KeptHrefs(links: seq<Link>, countryCode: string): (r: seq<string>)
    ensures |r| <= |links|
    ensures forall k :: 0 <= k < |r| ==> Contains(r[k], countryCode) && !("#" <= r[k])
  {
    if links == [] then []
    else
      var last := links[|links| - 1];
      KeptHrefs(links[..|links| - 1], countryCode) + (if Kept(last, countryCode) then [last.href.value] else [])
  }

  /** The filter keeps page order: the hrefs kept from a list split at any point are those kept
      from its first part followed by those kept from the rest. */
  lemma {:induction false} KeptHrefsAppend(a: seq<Link>, b: seq<Link>, countryCode: string)
    ensures KeptHrefs(a + b, countryCode) == KeptHrefs(a, countryCode) + KeptHrefs(b, countryCode)
    decreases |b|
  {
    if b == [] {
      assert a + b == a;
    } else {
      var init := b[..|b| - 1];
      KeptHrefsAppend(a, init, countryCode);
      assert (a + b)[..|a + b| - 1] == a + init;
      assert (a + b)[|a + b| - 1] == b[|b| - 1];
    }
  }

  /** A single link contributes its href iff it passes the filter. */
  lemma KeptHrefsSingle(l: Link, countryCode: string)
    ensures KeptHrefs([l], countryCode) == if Kept(l, countryCode) then [l.href.value] else []
  {
    assert [l][..0] == [];
  }

  /** The URLs of a page split at any point are the URLs of its first part followed by those of
      the rest: the links keep the order in which they appear on the page. */
  lemma PageUrlsAppend(a: seq<Link>, b: seq<Link>, countryCode: string, names: seq<string>)
    ensures KeptHrefs(FindAll(a + b, names), countryCode) ==
      KeptHrefs(FindAll(a, names), countryCode) + KeptHrefs(FindAll(b, names), countryCode)
  {
    FindAllAppend(a, b, names);
    KeptHrefsAppend(FindAll(a, names), FindAll(b, names), countryCode);
  }

  /** Two matching, kept links give their two URLs in page order. */
  lemma PageUrlsInOrder(l1: Link, l2: Link, countryCode: string, names: seq<string>)
    requires l1.text.Some? && LinkNameMatches(l1.text.value, names) && Kept(l1, countryCode)
    requires l2.text.Some? && LinkNameMatches(l2.text.value, names) && Kept(l2, countryCode)
    ensures KeptHrefs(FindAll([l1, l2], names), countryCode) == [l1.href.value, l2.href.value]
  {
    FindAllPair(l1, l2, names);
    KeptHrefsPair(l1, l2, countryCode);
  }

  lemma FindAllPair(l1: Link, l2: Link, names: seq<string>)
    requires l1.text.Some? && LinkNameMatches(l1.text.value, names)
    requires l2.text.Some? && LinkNameMatches(l2.text.value, names)
    ensures FindAll([l1, l2], names) == [l1, l2]
  {
    assert [l1, l2] == [l1] + [l2];
    FindAllCons(l1, [l2], names);
    FindAllSingle(l1, names);
    FindAllSingle(l2, names);
  }

  lemma KeptHrefsPair(l1: Link, l2: Link, countryCode: string)
    requires Kept(l1, countryCode) && Kept(l2, countryCode)
    ensures KeptHrefs([l1, l2], countryCode) == [l1.href.value, l2.href.value]
  {
    assert [l1, l2][..1] == [l1];
    KeptHrefsSingle(l1, countryCode);
  }

  /** An href is kept exactly when some link carrying it passes the filter. */
  lemma {:induction false} KeptHrefsMembers(links: seq<Link>, countryCode: string, h: string)
    ensures h in KeptHrefs(links, countryCode) <==>
      exists l :: l in links && Kept(l, countryCode) && l.href.value == h
  {
    if links != [] {
      var init := links[..|links| - 1];
      KeptHrefsMembers(init, countryCode, h);
      assert forall l :: l in links <==> l in init || l == links[|links| - 1];
    }
  }

  /** Extending the scanned prefix by one link adds that link's href exactly when it is kept. */
  lemma KeptHrefsSnoc(links: seq<Link>, i: nat, countryCode: string)
    requires i < |links|
    ensures KeptHrefs(links[..i + 1], countryCode) ==
      KeptHrefs(links[..i], countryCode) + (if Kept(links[i], countryCode) then [links[i].href.value] else [])
  {
    assert links[..i + 1][..i] == links[..i];
  }

  /** `names[k]` is the file name extracted from `urls[k]`, for every k. */
  predicate NamesExtracted(urls: seq<string>, names: seq<string>, countryCode: string) {
    |names| == |urls|
    && forall k :: 0 <= k < |urls| ==> ExtractFileNameFromHref(urls[k], countryCode) == Ok(names[k])
  }

  /** The URLs and file names of one country's download links, pairwise. */
  datatype UrlsAndNames = UrlsAndNames(urls: seq<string>, fileNames: seq<string>)

  /** `get_urls_file_names_by_country`: among the links whose text matches a file name, the
      kept ones' hrefs in page order, each with its extracted file name. An empty country code
      is contained in every href and makes the extraction raise. */
  method GetUrlsFileNamesByCountry(page: seq<Link>, countryCode: string, filesToDownloadNames: seq<string>)
    returns (r: Result<UrlsAndNames>)
    ensures var kept := KeptHrefs(FindAll(page, filesToDownloadNames), countryCode);
      && (r.Err? <==> countryCode == [] && kept != [])
      && (r.Err? ==> r.error == EmptySeparator)
      && (r.Ok? ==> r.value.urls == kept && NamesExtracted(kept, r.value.fileNames, countryCode))
  {
    var links := FindAll(page, filesToDownloadNames);
    var countryUrls: seq<string> := [];
    var fileNames: seq<string> := [];
    for i := 0 to |links|
      invariant countryUrls == KeptHrefs(links[..i], countryCode)
      invariant countryCode == [] ==> countryUrls == []
      invariant NamesExtracted(countryUrls, fileNames, countryCode)
    {
      KeptHrefsSnoc(links, i, countryCode);
      var link := links[i];
      if link.href.Some? && !("#" <= link.href.value) {
        var currentHref := link.href.value;
        if Contains(currentHref, countryCode) {
          var name := ExtractFileNameFromHref(currentHref, countryCode);
          if name.Err? {
            KeptHrefsNonEmpty(links, i + 1, countryCode);
            return Err(name.error);
          }
          assert NamesExtracted(countryUrls + [currentHref], fileNames + [name.value], countryCode);
          countryUrls := countryUrls + [currentHref];
          fileNames := fileNames + [name.value];
        }
      }
    }
    assert links[..|links|] == links;
    return Ok(UrlsAndNames(countryUrls, fileNames));
  }

  /** A kept link in a prefix makes the whole list's kept hrefs non-empty. */
  lemma KeptHrefsNonEmpty(links: seq<Link>, n: nat, countryCode: string)
    requires 0 < n <= |links| && Kept(links[n - 1], countryCode)
    ensures KeptHrefs(links, countryCode) != []
  {
    assert links[n - 1] in links;
    KeptHrefsMembers(links, countryCode, links[n - 1].href.value);
  }
}
