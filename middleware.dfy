/**
 * The page rewrite the site build applies to every HTML page of its output:
 * it puts the site's web-font links and its script bundle into the page. The
 * links go just before
 * the page's first `</head>`, and a script tag loading `index.js` from the site
 * root goes just before the page's first `</body>`.
 */
module Middleware {
  import opened Wrappers
  import opened Text

  const HeadClose: string := "</head>"
  const BodyClose: string := "</body>"

  // The single template literal of `getCustomStyles` is written below in
  // short pieces only so that the proof that the styles hold no `b` (and so
  // no `</body>`) can check each piece on its own (StylesHoldNoB).

  /** The link that opens a connection to the font stylesheet host early. */
  const PreconnectFonts: string :=
    "\n  <link rel=\"preconnect\" href=\"" + "https://fonts.googleapis.com\">"

  /** The link that opens a connection to the font file host early. */
  const PreconnectFontFiles: string :=
    "\n  <link rel=\"preconnect\" href=\"" + "https://fonts.gstatic.com\"" + " crossorigin>"

  /** The stylesheet address is the font host's CSS endpoint, ... */
  const FontCss: string := "https://fonts.googleapis.com/css2"

  /** ... the Figtree family with its weight range, ... */
  const FamilyFigtree: string := "?family=Figtree:wght@300..900"

  /** ... the Source Code Pro family with its italic and weight axes, ... */
  const FamilySourceCodePro: string := "&family=Source+Code+Pro:ital,"
  const SourceCodeProAxes: string := "wght@0,200..900;1,200..900"

  /** ... and the display policy. */
  const DisplaySwap: string := "&display=swap"

  /** The stylesheet link for both font families. */
  const FontStylesheet: string :=
    "\n  <link href=\"" + FontCss + FamilyFigtree + FamilySourceCodePro + SourceCodeProAxes + DisplaySwap
    + "\" rel=\"stylesheet\"></link>"

  /** `getCustomStyles()`: the three font links, each on its own indented line. */
  function GetCustomStyles(): string
  {
    PreconnectFonts + PreconnectFontFiles + FontStylesheet + "\n"
  }

  /** `Array(depth).fill('../').join('')`: one `../` per directory level. */
  function ParentDirs(depth: nat): string
  {
    if depth == 0 then "" else "../" + ParentDirs(depth - 1)
  }

  /** The script's `src`: from a page `depth` levels down, back up to the root's `index.js`. */
  function ScriptSrc(depth: nat): string
  {
    ParentDirs(depth) + "index.js"
  }

  const ScriptOpen: string := "\n  <script src=\""
  const ScriptClose: string := "\"></script>\n"

  /** `getCustomScript(depth)` */
  function GetCustomScript(depth: nat): string
  {
    ScriptOpen + ScriptSrc(depth) + ScriptClose
  }

  /** `addCustomScriptAndStyles(html, depth)`: two first-occurrence replacements, styles first. */
  function AddCustomScriptAndStyles(html: string, depth: nat): string
  {
    var withStyles := ReplaceFirst(html, HeadClose, GetCustomStyles() + HeadClose);
    ReplaceFirst(withStyles, BodyClose, GetCustomScript(depth) + BodyClose)
  }

  /** `t` put into `s` at index `i`. */
  function InsertAt(s: string, i: nat, t: string): string
    requires i <= |s|
  {
    s[..i] + t + s[i..]
  }

  /** Where each character of an insertion comes from. */
  lemma InsertAtChar(s: string, i: int, t: string, k: int)
    ensures 0 <= i <= |s| && 0 <= k < i ==> InsertAt(s, i, t)[k] == s[k]
    ensures 0 <= i <= |s| && i <= k < i + |t| ==> InsertAt(s, i, t)[k] == t[k - i]
    ensures 0 <= i <= |s| && i + |t| <= k < |s| + |t| ==> InsertAt(s, i, t)[k] == s[k - |t|]
  {
  }

  /**
   * The page with `styles` just before its first `</head>` and `script` just
   * before its first `</body>`, both located in the page as given; a missing
   * marker means that snippet is not added.
   */
  function Injected(html: string, styles: string, script: string): string
  {
    match IndexOf(html, HeadClose)
    case None =>
      (match IndexOf(html, BodyClose)
       case None => html
       case Some(b) => InsertAt(html, b, script))
    case Some(h) =>
      match IndexOf(html, BodyClose)
      case None => InsertAt(html, h, styles)
      case Some(b) =>
        if h < b then html[..h] + styles + html[h..b] + script + html[b..]
        else html[..b] + script + html[b..h] + styles + html[h..]
  }

  /** The script's `src` is `depth` copies of `../` and then `index.js`. */
  lemma {:induction false} ParentDirsShape(depth: nat)
    ensures |ParentDirs(depth)| == 3 * depth
    ensures forall k :: 0 <= k < depth ==> ParentDirs(depth)[3 * k..3 * k + 3] == "../"
  {
    if depth > 0 {
      ParentDirsShape(depth - 1);
      var r := ParentDirs(depth);
      forall k | 0 <= k < depth ensures r[3 * k..3 * k + 3] == "../" {
        if k > 0 {
          assert r[3 * k..3 * k + 3] == ParentDirs(depth - 1)[3 * (k - 1)..3 * (k - 1) + 3];
        }
      }
    }
  }

  /**
   * The script tag holds, between its fixed opening and closing text, a
   * `src` of exactly `depth` copies of `../` followed by `index.js`; at the
   * site root that is `index.js` alone.
   */
  lemma ScriptSource(depth: nat)
    ensures var script := GetCustomScript(depth);
      var src := script[|ScriptOpen|..|script| - |ScriptClose|];
      |script| == |ScriptOpen| + |ScriptClose| + |src|
      && StartsWith(script, ScriptOpen) && EndsWith(script, ScriptClose)
      && |src| == 3 * depth + 8
      && (forall k :: 0 <= k < depth ==> src[3 * k..3 * k + 3] == "../")
      && src[3 * depth..] == "index.js"
  {
    Framed(ScriptOpen, ScriptSrc(depth), ScriptClose);
    ScriptSrcShape(depth);
  }

  /** At the site root the script tag loads `index.js` with no parent directories. */
  lemma ScriptAtRoot()
    ensures GetCustomScript(0) == "\n  <script src=\"index.js\"></script>\n"
  {
    assert ParentDirs(0) == "";
    assert ScriptSrc(0) == "index.js";
    assert GetCustomScript(0) == ScriptOpen + "index.js" + ScriptClose;
  }

  /** `s` between an opening and a closing text is recovered by cutting both off. */
  lemma Framed(open: string, s: string, close: string)
    ensures var framed := open + s + close;
      && |framed| == |open| + |close| + |s|
      && framed[|open|..|framed| - |close|] == s
      && StartsWith(framed, open) && EndsWith(framed, close)
  {
    var framed := open + s + close;
    assert framed[|open|..|framed| - |close|] == s;
    assert framed[..|open|] == open;
    assert framed[|framed| - |close|..] == close;
  }

  lemma ScriptSrcShape(depth: nat)
    ensures var src := ScriptSrc(depth);
      && |src| == 3 * depth + 8
      && (forall k :: 0 <= k < depth ==> src[3 * k..3 * k + 3] == "../")
      && src[3 * depth..] == "index.js"
  {
    ParentDirsShape(depth);
    var src := ScriptSrc(depth);
    forall k | 0 <= k < depth ensures src[3 * k..3 * k + 3] == "../" {
      assert src[3 * k..3 * k + 3] == ParentDirs(depth)[3 * k..3 * k + 3];
    }
    assert src[3 * depth..] == "index.js";
  }

  /** The styles open and close with a line break and hold no `b`, so no `</body>`. */
  lemma StylesShape()
    ensures var styles := GetCustomStyles();
      |styles| > 0 && styles[0] == '\n' && styles[|styles| - 1] == '\n'
      && 'b' !in styles && IndexOf(styles, BodyClose) == None
  {
    var styles := GetCustomStyles();
    StylesHoldNoB();
    forall j | 0 <= j ensures !OccursAt(styles, BodyClose, j) {
      if OccursAt(styles, BodyClose, j) {
        OccursAtChar(styles, BodyClose, j, 2);
        assert false;
      }
    }
    IndexOfAbsent(styles, BodyClose);
  }

  lemma StylesHoldNoB()
    ensures 'b' !in GetCustomStyles()
  {
    PreconnectsHoldNoB();
    FontStylesheetHoldsNoB();
  }

  lemma PreconnectsHoldNoB()
    ensures 'b' !in PreconnectFonts && 'b' !in PreconnectFontFiles
  {
  }

  lemma FontStylesheetHoldsNoB()
    ensures 'b' !in FontStylesheet
  {
    FontCssHoldsNoB();
    FamiliesHoldNoB();
    AxesHoldNoB();
    assert 'b' !in "\n  <link href=\"";
    assert 'b' !in "\" rel=\"stylesheet\"></link>";
  }

  lemma FontCssHoldsNoB()
    ensures 'b' !in FontCss
  {
  }

  lemma FamiliesHoldNoB()
    ensures 'b' !in FamilyFigtree && 'b' !in FamilySourceCodePro
  {
  }

  lemma AxesHoldNoB()
    ensures 'b' !in SourceCodeProAxes && 'b' !in DisplaySwap
  {
  }

  /** A `</body>` never overlaps a `</head>`: each holds `<` only at its start. */
  lemma MarkersApart(s: string, h: int, j: int)
    requires OccursAt(s, HeadClose, h) && OccursAt(s, BodyClose, j)
    ensures j + |BodyClose| <= h || h + |HeadClose| <= j
  {
    if j < h < j + 7 {
      OccursAtChar(s, HeadClose, h, 0);
      OccursAtChar(s, BodyClose, j, h - j);
      assert false;
    } else if h <= j < h + 7 {
      OccursAtChar(s, HeadClose, h, j - h);
      OccursAtChar(s, HeadClose, h, j + 2 - h);
      OccursAtChar(s, BodyClose, j, 0);
      OccursAtChar(s, BodyClose, j, 2);
      assert false;
    }
  }

  /**
   * After the styles are inserted before a `</head>` at `h`, the `</body>`s are
   * exactly the old ones, those past `h` moved along by the styles' length.
   */
  lemma BodyCloseAfterStyles(html: string, h: nat, styles: string, j: int)
    requires OccursAt(html, HeadClose, h)
    requires |styles| > 0 && styles[0] == '\n' && 'b' !in styles
    ensures var s := InsertAt(html, h, styles);
      OccursAt(s, BodyClose, j) <==>
        (j < h && OccursAt(html, BodyClose, j))
        || (j >= h + |styles| && OccursAt(html, BodyClose, j - |styles|))
  {
    var s := InsertAt(html, h, styles);
    var n := |styles|;
    if 0 <= j < h {
      if OccursAt(html, BodyClose, j) {
        MarkersApart(html, h, j);
        assert s[j..j + 7] == html[j..j + 7];
      }
      if OccursAt(s, BodyClose, j) {
        if j + 7 > h {
          OccursAtChar(s, BodyClose, j, h - j);
          assert false;
        }
        assert s[j..j + 7] == html[j..j + 7];
      }
    } else if h <= j < h + n {
      if OccursAt(s, BodyClose, j) {
        OccursAtChar(s, BodyClose, j, 2);
        if j + 2 < h + n {
          InsertAtChar(html, h, styles, j + 2);
          assert false;
        } else {
          OccursAtChar(html, HeadClose, h, j + 2 - n - h);
          InsertAtChar(html, h, styles, j + 2);
          assert false;
        }
      }
    } else if j >= h + n && j + 7 <= |s| {
      assert s[j..j + 7] == html[j - n..j - n + 7] by {
        assert s[h + n..] == html[h..];
        assert s[j..j + 7] == s[h + n..][j - h - n..j - h - n + 7];
      }
    }
  }

  /**
   * The first `</body>` after inserting the styles is the page's own first
   * `</body>`, moved along by the styles' length when it lies past `h`.
   */
  lemma FirstBodyCloseAfterStyles(html: string, h: nat, styles: string)
    requires OccursAt(html, HeadClose, h)
    requires |styles| > 0 && styles[0] == '\n' && 'b' !in styles
    ensures var s := InsertAt(html, h, styles);
      IndexOf(s, BodyClose) ==
        match IndexOf(html, BodyClose)
        case None => None
        case Some(b) => Some(if b < h then b else b + |styles|)
  {
    match IndexOf(html, BodyClose)
    case None =>
      NoBodyCloseAfterStyles(html, h, styles);
    case Some(b) =>
      BodyCloseMovedByStyles(html, h, styles, b);
  }

  lemma NoBodyCloseAfterStyles(html: string, h: nat, styles: string)
    requires OccursAt(html, HeadClose, h) && IndexOf(html, BodyClose) == None
    requires |styles| > 0 && styles[0] == '\n' && 'b' !in styles
    ensures IndexOf(InsertAt(html, h, styles), BodyClose) == None
  {
    var s := InsertAt(html, h, styles);
    forall j | 0 <= j ensures !OccursAt(s, BodyClose, j) {
      BodyCloseAfterStyles(html, h, styles, j);
      assert !OccursAt(html, BodyClose, j);
      if j >= |styles| {
        assert !OccursAt(html, BodyClose, j - |styles|);
      }
    }
    IndexOfAbsent(s, BodyClose);
  }

  lemma BodyCloseMovedByStyles(html: string, h: nat, styles: string, b: nat)
    requires OccursAt(html, HeadClose, h) && IndexOf(html, BodyClose) == Some(b)
    requires |styles| > 0 && styles[0] == '\n' && 'b' !in styles
    ensures IndexOf(InsertAt(html, h, styles), BodyClose) == Some(if b < h then b else b + |styles|)
  {
    var s := InsertAt(html, h, styles);
    var n := |styles|;
    MarkersApart(html, h, b);
    var x := if b < h then b else b + n;
    BodyCloseAfterStyles(html, h, styles, x);
    forall j | 0 <= j < x ensures !OccursAt(s, BodyClose, j) {
      BodyCloseAfterStyles(html, h, styles, j);
      if j < h {
        assert !OccursAt(html, BodyClose, j);
      } else if j >= h + n {
        assert !OccursAt(html, BodyClose, j - n);
      }
    }
    IndexOfIsFirst(s, BodyClose, x);
  }

  /**
   * The rewritten page is the reference injection of the font
   * links and its script tag: the links before the first `</head>` and the
   * script before the first `</body>` of the page as given, everything else
   * untouched.
   */
  lemma InjectionMatchesReference(html: string, depth: nat)
    ensures AddCustomScriptAndStyles(html, depth) == Injected(html, GetCustomStyles(), GetCustomScript(depth))
  {
    StylesShape();
    ReplaceTwice(html, GetCustomStyles(), GetCustomScript(depth));
  }

  /**
   * The two replacements insert any snippets where the reference injection
   * does, provided the first starts with a line break and holds no `b`, so
   * that it can neither complete nor hide a `</body>`.
   */
  lemma ReplaceTwice(html: string, styles: string, script: string)
    requires |styles| > 0 && styles[0] == '\n' && 'b' !in styles
    ensures ReplaceFirst(ReplaceFirst(html, HeadClose, styles + HeadClose), BodyClose, script + BodyClose)
      == Injected(html, styles, script)
  {
    ReplaceFirstInserts(html, HeadClose, styles);
    match IndexOf(html, HeadClose)
    case None =>
      ReplaceFirstInserts(html, BodyClose, script);
    case Some(h) =>
      InjectionAfterHead(html, h, styles, script);
  }

  /** The script step once the styles are in before the `</head>` at `h`. */
  lemma InjectionAfterHead(html: string, h: nat, styles: string, script: string)
    requires IndexOf(html, HeadClose) == Some(h)
    requires |styles| > 0 && styles[0] == '\n' && 'b' !in styles
    ensures ReplaceFirst(InsertAt(html, h, styles), BodyClose, script + BodyClose) == Injected(html, styles, script)
  {
    FirstBodyCloseAfterStyles(html, h, styles);
    match IndexOf(html, BodyClose)
    case None =>
      ReplaceFirstInserts(InsertAt(html, h, styles), BodyClose, script);
    case Some(b) =>
      MarkersApart(html, h, b);
      if b < h {
        ScriptBeforeHead(html, h, b, styles, script);
      } else {
        ScriptAfterHead(html, h, b, styles, script);
      }
  }

  lemma ScriptBeforeHead(html: string, h: nat, b: nat, styles: string, script: string)
    requires b < h <= |html|
    requires IndexOf(InsertAt(html, h, styles), BodyClose) == Some(b)
    ensures ReplaceFirst(InsertAt(html, h, styles), BodyClose, script + BodyClose)
      == html[..b] + script + html[b..h] + styles + html[h..]
  {
    ReplaceFirstInserts(InsertAt(html, h, styles), BodyClose, script);
    InsertTwiceBefore(html, h, b, styles, script);
  }

  lemma ScriptAfterHead(html: string, h: nat, b: nat, styles: string, script: string)
    requires h <= b <= |html|
    requires IndexOf(InsertAt(html, h, styles), BodyClose) == Some(b + |styles|)
    ensures ReplaceFirst(InsertAt(html, h, styles), BodyClose, script + BodyClose)
      == html[..h] + styles + html[h..b] + script + html[b..]
  {
    ReplaceFirstInserts(InsertAt(html, h, styles), BodyClose, script);
    InsertTwiceAfter(html, h, b, styles, script);
  }

  /** Inserting at `h` and then at an earlier `b` puts both where they were meant to go. */
  lemma InsertTwiceBefore(html: string, h: nat, b: nat, styles: string, script: string)
    requires b < h <= |html|
    ensures InsertAt(InsertAt(html, h, styles), b, script)
      == html[..b] + script + html[b..h] + styles + html[h..]
  {
    var s := InsertAt(html, h, styles);
    assert s[..b] == html[..b];
    assert s[b..] == html[b..h] + styles + html[h..];
  }

  /** Inserting at `h` and then at a later `b`, moved along by the first insertion. */
  lemma InsertTwiceAfter(html: string, h: nat, b: nat, styles: string, script: string)
    requires h <= b <= |html|
    ensures InsertAt(InsertAt(html, h, styles), b + |styles|, script)
      == html[..h] + styles + html[h..b] + script + html[b..]
  {
    var s := InsertAt(html, h, styles);
    var n := |styles|;
    assert s[..b + n] == html[..h] + styles + html[h..b];
    assert s[b + n..] == html[b..];
  }

  /**
   * The rewritten page grows by exactly the snippets whose markers are present:
   * a page without either marker is left unchanged.
   */
  lemma InjectedLength(html: string, depth: nat)
    ensures |AddCustomScriptAndStyles(html, depth)| ==
      |html| + (if IndexOf(html, HeadClose).Some? then |GetCustomStyles()| else 0)
      + (if IndexOf(html, BodyClose).Some? then |GetCustomScript(depth)| else 0)
    ensures IndexOf(html, HeadClose).None? && IndexOf(html, BodyClose).None? ==>
      AddCustomScriptAndStyles(html, depth) == html
  {
    InjectionMatchesReference(html, depth);
    InjectedLengthWith(html, GetCustomStyles(), GetCustomScript(depth));
  }

  lemma InjectedLengthWith(html: string, styles: string, script: string)
    ensures |Injected(html, styles, script)| ==
      |html| + (if IndexOf(html, HeadClose).Some? then |styles| else 0)
      + (if IndexOf(html, BodyClose).Some? then |script| else 0)
    ensures IndexOf(html, HeadClose).None? && IndexOf(html, BodyClose).None? ==> Injected(html, styles, script) == html
  {
  }

  /** Deeper pages get a longer script tag, by three characters a level. */
  lemma ScriptLength(depth: nat)
    ensures |GetCustomScript(depth)| == |GetCustomScript(0)| + 3 * depth
  {
    ParentDirsShape(depth);
    ParentDirsShape(0);
  }
}
