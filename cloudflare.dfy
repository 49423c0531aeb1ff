/**
 * The expansion of the redirect map into Cloudflare bulk-redirect list items
 * (the `forEach` callback in `main` of cloudflare.js). Each map entry becomes
 * zero, one, two or six items; the API calls around it are not modelled.
 */
module Cloudflare {
  import opened Wrappers
  import opened Text

  const UrlPrefix: string := "https://docs.bitrise.io"
  const StatusCode: int := 301

  /** The shared `options` object of one callback; absent properties are `None`. */
  datatype Options = Options(
    status_code: int,
    preserve_query_string: bool,
    subpath_matching: Option<bool>,
    target_url: Option<string>,
    preserve_path_suffix: Option<bool>)

  /** The `redirect` of a list item: a source URL followed by a copy of the options. */
  datatype Redirect = Redirect(
    source_url: string,
    status_code: int,
    preserve_query_string: bool,
    subpath_matching: Option<bool>,
    target_url: Option<string>,
    preserve_path_suffix: Option<bool>)

  datatype ListItem = ListItem(redirect: Redirect)

  /** `{ redirect: { source_url, ...options } }`: the options are copied when the item is built. */
  function Spread(source_url: string, options: Options): ListItem
  {
    ListItem(Redirect(source_url, options.status_code, options.preserve_query_string,
                      options.subpath_matching, options.target_url, options.preserve_path_suffix))
  }

  /** `sourceUrl.match(/^[^/]/)`: the key has a first character and it is not a slash. */
  predicate LacksLeadingSlash(sourceUrl: string)
  {
    |sourceUrl| > 0 && sourceUrl[0] != '/'
  }

  /** `targetUrl.match(/^https?:\/\//)`. */
  predicate IsAbsoluteHttp(url: string)
  {
    StartsWith(url, "http://") || StartsWith(url, "https://")
  }

  /** `s.replace(/\.html$/, '')`. */
  function StripHtml(s: string): string
  {
    if EndsWith(s, ".html") then s[..|s| - 5] else s
  }

  /** `s.replace(/^\/en\//, rep)`. */
  function ReplaceEn(s: string, rep: string): string
  {
    if StartsWith(s, "/en/") then rep + s[4..] else s
  }

  // ---------------------------------------------------------------------------
  // The reference definition: what each item of an entry holds

  /** A site-relative target is put under the documentation host; an absolute http(s) one is kept. */
  function TargetUrlPrefix(targetUrl: string): string
  {
    if IsAbsoluteHttp(targetUrl) then "" else UrlPrefix
  }

  /** An item without subpath matching (the `.html` pairs and the locale variants). */
  function PlainItem(source_url: string, target_url: string): ListItem
  {
    ListItem(Redirect(source_url, StatusCode, true, None, Some(target_url), None))
  }

  /** The target the locale variants of an `/en/` entry point to. */
  function LocaleTarget(targetUrl: string): string
  {
    if TargetUrlPrefix(targetUrl) == UrlPrefix && StartsWith(targetUrl, "/en/")
    then UrlPrefix + ReplaceEn(targetUrl, "/ja/")
    else TargetUrlPrefix(targetUrl) + targetUrl
  }

  /** The items one entry of the map expands to, in the order they are pushed. */
  function ExpandEntry(sourceUrl: string, targetUrl: string): seq<ListItem>
  {
    if LacksLeadingSlash(sourceUrl) then []
    else if EndsWith(sourceUrl, "*") then
      var suffix := EndsWith(targetUrl, "$1");
      var target := if suffix then targetUrl[..|targetUrl| - 2] else targetUrl;
      [ListItem(Redirect(UrlPrefix + sourceUrl[..|sourceUrl| - 1], StatusCode, true,
                         Some(true), Some(TargetUrlPrefix(targetUrl) + target), Some(suffix)))]
    else
      var pair := PagePair(UrlPrefix + StripHtml(sourceUrl), TargetUrlPrefix(targetUrl) + targetUrl);
      if !StartsWith(sourceUrl, "/en/") then pair
      else
        var lt := LocaleTarget(targetUrl);
        pair + PagePair(UrlPrefix + StripHtml(ReplaceEn(sourceUrl, "/ja/")), lt)
        + PagePair(UrlPrefix + StripHtml(ReplaceEn(sourceUrl, "/jp/")), lt)
  }

  /** The items of one page: without `.html` and then with it, both to the same target. */
  function PagePair(page: string, target: string): seq<ListItem>
  {
    [PlainItem(page, target), PlainItem(page + ".html", target)]
  }

  /** All items, entry by entry in key order. */
  function UploadList(keys: seq<string>, newRedirects: map<string, string>): seq<ListItem>
    requires forall i :: 0 <= i < |keys| ==> keys[i] in newRedirects
  {
    if keys == [] then []
    else ExpandEntry(keys[0], newRedirects[keys[0]]) + UploadList(keys[1..], newRedirects)
  }

  // ---------------------------------------------------------------------------
  // The loop

  /**
   * The `forEach` callback (lines 194-274): builds one `options` object, then
   * pushes items, copying the options at each push; for an `/en/` key the
   * target is rewritten between the second and the third push.
   */
  method ExpandEntryCallback(sourceUrl: string, targetUrl: string) returns (pushed: seq<ListItem>)
    ensures pushed == ExpandEntry(sourceUrl, targetUrl)
  {
    pushed := [];
    if LacksLeadingSlash(sourceUrl) {
      return;
    }
    var targetUrlPrefix := if IsAbsoluteHttp(targetUrl) then "" else UrlPrefix;
    var options := Options(StatusCode, true, None, None, None);
    if EndsWith(sourceUrl, "*") {
      options := options.(subpath_matching := Some(true));
      if EndsWith(targetUrl, "$1") {
        options := options.(target_url := Some(targetUrlPrefix + targetUrl[..|targetUrl| - 2]));
        options := options.(preserve_path_suffix := Some(true));
      } else {
        options := options.(target_url := Some(targetUrlPrefix + targetUrl));
        options := options.(preserve_path_suffix := Some(false));
      }
      pushed := pushed + [Spread(UrlPrefix + sourceUrl[..|sourceUrl| - 1], options)];
    } else {
      options := options.(target_url := Some(targetUrlPrefix + targetUrl));
      pushed := pushed + [Spread(UrlPrefix + StripHtml(sourceUrl), options)];
      pushed := pushed + [Spread(UrlPrefix + StripHtml(sourceUrl) + ".html", options)];
      assert pushed == PagePair(UrlPrefix + StripHtml(sourceUrl), TargetUrlPrefix(targetUrl) + targetUrl);
      if StartsWith(sourceUrl, "/en/") {
        if targetUrlPrefix == UrlPrefix && StartsWith(targetUrl, "/en/") {
          options := options.(target_url := Some(targetUrlPrefix + ReplaceEn(targetUrl, "/ja/")));
        }
        assert options == Options(StatusCode, true, None, Some(LocaleTarget(targetUrl)), None);
        ghost var pair := pushed;
        pushed := pushed + [Spread(UrlPrefix + StripHtml(ReplaceEn(sourceUrl, "/ja/")), options)];
        pushed := pushed + [Spread(UrlPrefix + StripHtml(ReplaceEn(sourceUrl, "/ja/")) + ".html", options)];
        assert pushed == pair + PagePair(UrlPrefix + StripHtml(ReplaceEn(sourceUrl, "/ja/")), LocaleTarget(targetUrl));
        ghost var withJa := pushed;
        pushed := pushed + [Spread(UrlPrefix + StripHtml(ReplaceEn(sourceUrl, "/jp/")), options)];
        pushed := pushed + [Spread(UrlPrefix + StripHtml(ReplaceEn(sourceUrl, "/jp/")) + ".html", options)];
        assert pushed == withJa + PagePair(UrlPrefix + StripHtml(ReplaceEn(sourceUrl, "/jp/")), LocaleTarget(targetUrl));
      }
    }
  }

  /** `Object.keys(newRedirects).forEach(...)`, pushing into `redirectsToUpload`. */
  method BuildRedirectsToUpload(keys: seq<string>, newRedirects: map<string, string>) returns (redirectsToUpload: seq<ListItem>)
    requires forall i :: 0 <= i < |keys| ==> keys[i] in newRedirects
    ensures redirectsToUpload == UploadList(keys, newRedirects)
  {
    redirectsToUpload := [];
    for i := 0 to |keys|
      invariant redirectsToUpload == UploadList(keys[..i], newRedirects)
    {
      var pushed := ExpandEntryCallback(keys[i], newRedirects[keys[i]]);
      UploadListSnoc(keys, i, newRedirects);
      redirectsToUpload := redirectsToUpload + pushed;
    }
    assert keys[..|keys|] == keys;
  }

  /** The list of the first `i + 1` keys extends that of the first `i` by the items of key `i`. */
  lemma UploadListSnoc(keys: seq<string>, i: nat, newRedirects: map<string, string>)
    requires forall i :: 0 <= i < |keys| ==> keys[i] in newRedirects
    requires i < |keys|
    ensures UploadList(keys[..i + 1], newRedirects)
      == UploadList(keys[..i], newRedirects) + ExpandEntry(keys[i], newRedirects[keys[i]])
  {
    assert keys[..i + 1] == keys[..i] + [keys[i]];
    UploadListInKeyOrder(keys[..i], [keys[i]], newRedirects);
    UploadListOne(keys[i], newRedirects);
  }

  lemma UploadListOne(key: string, newRedirects: map<string, string>)
    requires key in newRedirects
    ensures UploadList([key], newRedirects) == ExpandEntry(key, newRedirects[key])
  {
    assert [key][1..] == [];
    assert ExpandEntry(key, newRedirects[key]) + [] == ExpandEntry(key, newRedirects[key]);
  }

  // ---------------------------------------------------------------------------
  // What the expansion promises

  /** Items come entry by entry in key order: the list of a concatenation is the concatenation of the lists. */
  lemma {:induction false} UploadListInKeyOrder(a: seq<string>, b: seq<string>, newRedirects: map<string, string>)
    requires forall i :: 0 <= i < |a| ==> a[i] in newRedirects
    requires forall i :: 0 <= i < |b| ==> b[i] in newRedirects
    ensures forall i :: 0 <= i < |a + b| ==> (a + b)[i] in newRedirects
    ensures UploadList(a + b, newRedirects) == UploadList(a, newRedirects) + UploadList(b, newRedirects)
  {
    assert forall i :: 0 <= i < |a + b| ==> (a + b)[i] in newRedirects by {
      forall i | 0 <= i < |a + b| ensures (a + b)[i] in newRedirects {
        if i >= |a| { assert (a + b)[i] == b[i - |a|]; }
      }
    }
    if a == [] {
      assert a + b == b;
    } else {
      var e := ExpandEntry(a[0], newRedirects[a[0]]);
      assert (a + b)[0] == a[0];
      assert (a + b)[1..] == a[1..] + b;
      UploadListInKeyOrder(a[1..], b, newRedirects);
      var x, y := UploadList(a[1..], newRedirects), UploadList(b, newRedirects);
      assert e + (x + y) == (e + x) + y;
    }
  }

  /**
   * The number of items of an entry: none for a key with a first character
   * other than a slash, one for a wildcard, six for an `/en/` page, two for
   * any other page (the empty key included).
   */
  lemma ItemCount(sourceUrl: string, targetUrl: string)
    ensures |ExpandEntry(sourceUrl, targetUrl)| ==
      if LacksLeadingSlash(sourceUrl) then 0
      else if EndsWith(sourceUrl, "*") then 1
      else if StartsWith(sourceUrl, "/en/") then 6
      else 2
    ensures ExpandEntry(sourceUrl, targetUrl) == [] <==> |sourceUrl| > 0 && sourceUrl[0] != '/'
  {
  }

  /** Every item redirects permanently, keeps the query string and comes from a URL under the documentation host. */
  lemma CommonFields(sourceUrl: string, targetUrl: string)
    ensures var items := ExpandEntry(sourceUrl, targetUrl);
      forall k :: 0 <= k < |items| ==>
        && items[k].redirect.status_code == 301
        && items[k].redirect.preserve_query_string
        && items[k].redirect.target_url.Some?
        && StartsWith(items[k].redirect.source_url, "https://docs.bitrise.io")
  {
    var items := ExpandEntry(sourceUrl, targetUrl);
    forall k | 0 <= k < |items|
      ensures && items[k].redirect.status_code == 301
        && items[k].redirect.preserve_query_string
        && items[k].redirect.target_url.Some?
        && StartsWith(items[k].redirect.source_url, UrlPrefix)
    {
      FieldsAt(sourceUrl, targetUrl, k);
    }
  }

  lemma FieldsAt(sourceUrl: string, targetUrl: string, k: nat)
    requires k < |ExpandEntry(sourceUrl, targetUrl)|
    ensures var r := ExpandEntry(sourceUrl, targetUrl)[k].redirect;
      && r.status_code == StatusCode && r.preserve_query_string && r.target_url.Some?
      && StartsWith(r.source_url, UrlPrefix)
  {
    if EndsWith(sourceUrl, "*") {
      PrefixStartsWith(UrlPrefix, sourceUrl[..|sourceUrl| - 1]);
    } else if k < 2 {
      HostedPage(StripHtml(sourceUrl));
    } else if k < 4 {
      HostedPage(StripHtml(ReplaceEn(sourceUrl, "/ja/")));
    } else {
      HostedPage(StripHtml(ReplaceEn(sourceUrl, "/jp/")));
    }
  }

  /** Both sources made from one page lie under the documentation host. */
  lemma HostedPage(page: string)
    ensures StartsWith(UrlPrefix + page, UrlPrefix) && StartsWith(UrlPrefix + page + ".html", UrlPrefix)
  {
    PrefixStartsWith(UrlPrefix, page);
    PrefixStartsWith(UrlPrefix, page + ".html");
    assert UrlPrefix + page + ".html" == UrlPrefix + (page + ".html");
  }

  /**
   * A site-relative target is put under the documentation host; an absolute
   * http(s) target is kept as it is, except that a wildcard entry may drop
   * its trailing `$1`.
   */
  lemma TargetPrefixRule(sourceUrl: string, targetUrl: string)
    ensures forall item :: item in ExpandEntry(sourceUrl, targetUrl) ==>
      && item.redirect.target_url.Some?
      && (!IsAbsoluteHttp(targetUrl) ==> StartsWith(item.redirect.target_url.value, "https://docs.bitrise.io"))
      && (IsAbsoluteHttp(targetUrl) ==> StartsWith(targetUrl, item.redirect.target_url.value))
  {
    var items := ExpandEntry(sourceUrl, targetUrl);
    forall item | item in items
      ensures item.redirect.target_url.Some?
      ensures !IsAbsoluteHttp(targetUrl) ==> StartsWith(item.redirect.target_url.value, UrlPrefix)
      ensures IsAbsoluteHttp(targetUrl) ==> StartsWith(targetUrl, item.redirect.target_url.value)
    {
      var k :| 0 <= k < |items| && items[k] == item;
      TargetAt(sourceUrl, targetUrl, k);
    }
  }

  lemma TargetAt(sourceUrl: string, targetUrl: string, k: nat)
    requires k < |ExpandEntry(sourceUrl, targetUrl)|
    ensures var t := ExpandEntry(sourceUrl, targetUrl)[k].redirect.target_url;
      && t.Some?
      && (!IsAbsoluteHttp(targetUrl) ==> StartsWith(t.value, UrlPrefix))
      && (IsAbsoluteHttp(targetUrl) ==> StartsWith(targetUrl, t.value))
  {
    if EndsWith(sourceUrl, "*") {
      var target := if EndsWith(targetUrl, "$1") then targetUrl[..|targetUrl| - 2] else targetUrl;
      assert ExpandEntry(sourceUrl, targetUrl)[k].redirect.target_url == Some(TargetUrlPrefix(targetUrl) + target);
      if IsAbsoluteHttp(targetUrl) {
        assert "" + target == target;
        assert targetUrl[..|target|] == target;
      } else {
        PrefixStartsWith(UrlPrefix, target);
      }
    } else {
      PageItemAt(sourceUrl, targetUrl, k);
      PageTargetsRule(targetUrl);
    }
  }

  /** The targets of a page entry: under the documentation host, or the absolute target itself. */
  lemma PageTargetsRule(targetUrl: string)
    ensures !IsAbsoluteHttp(targetUrl) ==>
      StartsWith(TargetUrlPrefix(targetUrl) + targetUrl, UrlPrefix) && StartsWith(LocaleTarget(targetUrl), UrlPrefix)
    ensures IsAbsoluteHttp(targetUrl) ==>
      TargetUrlPrefix(targetUrl) + targetUrl == targetUrl && LocaleTarget(targetUrl) == targetUrl
  {
    if IsAbsoluteHttp(targetUrl) {
      assert "" + targetUrl == targetUrl;
    } else {
      PrefixStartsWith(UrlPrefix, targetUrl);
      PrefixStartsWith(UrlPrefix, ReplaceEn(targetUrl, "/ja/"));
    }
  }

  /** Item `k` of a page entry: the pair's items first, then the locale variants. */
  lemma PageItemAt(sourceUrl: string, targetUrl: string, k: nat)
    requires !LacksLeadingSlash(sourceUrl) && !EndsWith(sourceUrl, "*")
    requires k < |ExpandEntry(sourceUrl, targetUrl)|
    ensures var r := ExpandEntry(sourceUrl, targetUrl)[k].redirect;
      && r.subpath_matching.None? && r.preserve_path_suffix.None?
      && r.target_url == Some(if k < 2 then TargetUrlPrefix(targetUrl) + targetUrl else LocaleTarget(targetUrl))
      && (k < 2 ==> ExpandEntry(sourceUrl, targetUrl)[k]
                    == PagePair(UrlPrefix + StripHtml(sourceUrl), TargetUrlPrefix(targetUrl) + targetUrl)[k])
  {
    var items := ExpandEntry(sourceUrl, targetUrl);
    var pair := PagePair(UrlPrefix + StripHtml(sourceUrl), TargetUrlPrefix(targetUrl) + targetUrl);
    if StartsWith(sourceUrl, "/en/") {
      LocaleItems(sourceUrl, targetUrl);
      var lt := LocaleTarget(targetUrl);
      if k < 2 {
        assert items[k] == pair[k];
      } else if k < 4 {
        assert items[k] == PagePair(UrlPrefix + StripHtml("/ja/" + sourceUrl[4..]), lt)[k - 2];
      } else {
        assert items[k] == PagePair(UrlPrefix + StripHtml("/jp/" + sourceUrl[4..]), lt)[k - 4];
      }
    } else {
      assert items == pair;
    }
  }

  lemma PrefixStartsWith(p: string, s: string)
    ensures StartsWith(p + s, p)
  {
    assert (p + s)[..|p|] == p;
  }

  /** Stripping `.html` loses nothing else: adding it back gives the original. */
  lemma StripHtmlRestores(s: string)
    ensures StripHtml(s) + (if EndsWith(s, ".html") then ".html" else "") == s
    ensures |StripHtml(s)| == if EndsWith(s, ".html") then |s| - 5 else |s|
  {
    if EndsWith(s, ".html") {
      assert s == s[..|s| - 5] + s[|s| - 5..];
    }
  }

  /**
   * A wildcard key gives one item that matches subpaths from the key without
   * its `*`; it preserves the path suffix exactly when the target ends in
   * `$1`, and then its target is the target without the `$1`.
   */
  lemma WildcardEntry(sourceUrl: string, targetUrl: string)
    requires !LacksLeadingSlash(sourceUrl) && EndsWith(sourceUrl, "*")
    ensures var items := ExpandEntry(sourceUrl, targetUrl);
      && |items| == 1
      && items[0].redirect.source_url + "*" == UrlPrefix + sourceUrl
      && items[0].redirect.subpath_matching == Some(true)
      && items[0].redirect.preserve_path_suffix == Some(EndsWith(targetUrl, "$1"))
      && items[0].redirect.target_url.Some?
      && items[0].redirect.target_url.value + (if EndsWith(targetUrl, "$1") then "$1" else "")
         == TargetUrlPrefix(targetUrl) + targetUrl
  {
    var suffix := EndsWith(targetUrl, "$1");
    var stem := sourceUrl[..|sourceUrl| - 1];
    var target := if suffix then targetUrl[..|targetUrl| - 2] else targetUrl;
    var prefix := TargetUrlPrefix(targetUrl);
    assert ExpandEntry(sourceUrl, targetUrl)
      == [ListItem(Redirect(UrlPrefix + stem, StatusCode, true, Some(true), Some(prefix + target), Some(suffix)))];
    assert sourceUrl == stem + "*";
    assert UrlPrefix + stem + "*" == UrlPrefix + (stem + "*");
    if suffix {
      assert targetUrl == target + "$1";
      assert prefix + target + "$1" == prefix + (target + "$1");
    } else {
      assert prefix + target + "" == prefix + target;
    }
  }

  /**
   * A page key (no wildcard) gives first the page without `.html` and then
   * with it, both to the same target; neither matches subpaths, and one of
   * the two sources is the key itself.
   */
  lemma PageEntry(sourceUrl: string, targetUrl: string)
    requires !LacksLeadingSlash(sourceUrl) && !EndsWith(sourceUrl, "*")
    ensures var items := ExpandEntry(sourceUrl, targetUrl);
      && |items| >= 2
      && (EndsWith(sourceUrl, ".html") ==> items[1].redirect.source_url == UrlPrefix + sourceUrl)
      && (!EndsWith(sourceUrl, ".html") ==> items[0].redirect.source_url == UrlPrefix + sourceUrl)
      && items[0].redirect.target_url == items[1].redirect.target_url == Some(TargetUrlPrefix(targetUrl) + targetUrl)
      && forall k :: 0 <= k < |items| ==> items[k].redirect.subpath_matching.None? && items[k].redirect.preserve_path_suffix.None?
  {
    ItemCount(sourceUrl, targetUrl);
    PageItemAt(sourceUrl, targetUrl, 0);
    PageItemAt(sourceUrl, targetUrl, 1);
    PageItemsPlain(sourceUrl, targetUrl);
    PageSources(UrlPrefix, sourceUrl);
  }

  /** One of the pair's two sources is the key itself. */
  lemma PageSources(host: string, sourceUrl: string)
    ensures EndsWith(sourceUrl, ".html") ==> host + StripHtml(sourceUrl) + ".html" == host + sourceUrl
    ensures !EndsWith(sourceUrl, ".html") ==> host + StripHtml(sourceUrl) == host + sourceUrl
  {
    StripHtmlRestores(sourceUrl);
    assert host + StripHtml(sourceUrl) + ".html" == host + (StripHtml(sourceUrl) + ".html");
  }

  lemma PageItemsPlain(sourceUrl: string, targetUrl: string)
    requires !LacksLeadingSlash(sourceUrl) && !EndsWith(sourceUrl, "*")
    ensures var items := ExpandEntry(sourceUrl, targetUrl);
      forall k :: 0 <= k < |items| ==> items[k].redirect.subpath_matching.None? && items[k].redirect.preserve_path_suffix.None?
  {
    var items := ExpandEntry(sourceUrl, targetUrl);
    forall k | 0 <= k < |items|
      ensures items[k].redirect.subpath_matching.None? && items[k].redirect.preserve_path_suffix.None?
    {
      PageItemAt(sourceUrl, targetUrl, k);
    }
  }

  /**
   * A page key under `/en/` gives four more items after its pair: the `/ja/`
   * page without and with `.html`, then the legacy `/jp/` page without and
   * with `.html`. All four point to the locale target, which differs from the
   * pair's target exactly when the target is site-relative and under `/en/`;
   * the pair keeps the target as it was.
   */
  lemma LocaleVariants(sourceUrl: string, targetUrl: string)
    requires !EndsWith(sourceUrl, "*") && StartsWith(sourceUrl, "/en/")
    ensures var items := ExpandEntry(sourceUrl, targetUrl);
      && |items| == 6
      && items[2].redirect.source_url == UrlPrefix + StripHtml("/ja/" + sourceUrl[4..])
      && items[3].redirect.source_url == items[2].redirect.source_url + ".html"
      && items[4].redirect.source_url == UrlPrefix + StripHtml("/jp/" + sourceUrl[4..])
      && items[5].redirect.source_url == items[4].redirect.source_url + ".html"
      && items[0].redirect.target_url == Some(TargetUrlPrefix(targetUrl) + targetUrl)
      && (forall k :: 2 <= k < 6 ==> items[k].redirect.target_url == Some(
            if !IsAbsoluteHttp(targetUrl) && StartsWith(targetUrl, "/en/") then UrlPrefix + "/ja/" + targetUrl[4..]
            else TargetUrlPrefix(targetUrl) + targetUrl))
      && (items[2].redirect.target_url != items[0].redirect.target_url <==>
            !IsAbsoluteHttp(targetUrl) && StartsWith(targetUrl, "/en/"))
  {
    var items := ExpandEntry(sourceUrl, targetUrl);
    var page := UrlPrefix + StripHtml(sourceUrl);
    var ja := UrlPrefix + StripHtml("/ja/" + sourceUrl[4..]);
    var jp := UrlPrefix + StripHtml("/jp/" + sourceUrl[4..]);
    var t, lt := TargetUrlPrefix(targetUrl) + targetUrl, LocaleTarget(targetUrl);
    LocaleItems(sourceUrl, targetUrl);
    assert items[0] == PlainItem(page, t);
    assert items[2] == PlainItem(ja, lt) && items[3] == PlainItem(ja + ".html", lt);
    assert items[4] == PlainItem(jp, lt) && items[5] == PlainItem(jp + ".html", lt);
    LocaleTargetRule(targetUrl);
  }

  /** The six items of an `/en/` page, written out. */
  lemma LocaleItems(sourceUrl: string, targetUrl: string)
    requires !EndsWith(sourceUrl, "*") && StartsWith(sourceUrl, "/en/")
    ensures var page := UrlPrefix + StripHtml(sourceUrl);
      var ja := UrlPrefix + StripHtml("/ja/" + sourceUrl[4..]);
      var jp := UrlPrefix + StripHtml("/jp/" + sourceUrl[4..]);
      var t, lt := TargetUrlPrefix(targetUrl) + targetUrl, LocaleTarget(targetUrl);
      ExpandEntry(sourceUrl, targetUrl) == PagePair(page, t) + PagePair(ja, lt) + PagePair(jp, lt)
  {
    assert !LacksLeadingSlash(sourceUrl);
    assert ReplaceEn(sourceUrl, "/ja/") == "/ja/" + sourceUrl[4..];
    assert ReplaceEn(sourceUrl, "/jp/") == "/jp/" + sourceUrl[4..];
  }

  /** The locale target is the `/ja/` page exactly when the target is a site-relative `/en/` page. */
  lemma LocaleTargetRule(targetUrl: string)
    ensures LocaleTarget(targetUrl) ==
      if !IsAbsoluteHttp(targetUrl) && StartsWith(targetUrl, "/en/") then UrlPrefix + "/ja/" + targetUrl[4..]
      else TargetUrlPrefix(targetUrl) + targetUrl
    ensures LocaleTarget(targetUrl) != TargetUrlPrefix(targetUrl) + targetUrl <==>
      !IsAbsoluteHttp(targetUrl) && StartsWith(targetUrl, "/en/")
  {
    if !IsAbsoluteHttp(targetUrl) && StartsWith(targetUrl, "/en/") {
      assert UrlPrefix + ReplaceEn(targetUrl, "/ja/") == UrlPrefix + "/ja/" + targetUrl[4..];
      var i := |UrlPrefix| + 1;
      assert (UrlPrefix + ReplaceEn(targetUrl, "/ja/"))[i] == 'j';
      assert (UrlPrefix + targetUrl)[i] == 'e';
    }
  }
}
