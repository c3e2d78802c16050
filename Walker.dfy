/**
 * The recursive crawler `url_tree_explorer`: a URL ending in `/` is a
 * directory whose listing page is fetched and whose links are walked in
 * order; any other URL is a file. Each call prints one trace line and
 * returns its fragment of the folder or file template.
 *
 * `Explore` is the specification of one call, `UrlTreeExplorer` the
 * imperative walker with the source's accumulating loop, proved equal to it.
 */
module Walker {
  import opened Wrappers
  import opened PyStr
  import opened Links

  /**
   * What a walk is run with: the page fetch and the percent-decoder, whose
   * code is not modelled, and the two templates, fixed for the whole walk.
   */
  datatype Env = Env(
    fetch: string -> Option<string>,
    unquote: string -> string,
    folderTemplate: string,
    fileTemplate: string)

  /** Why a walk aborted: a listing page could not be fetched, or the depth bound ran out. */
  datatype Error = PageUnavailable(url: string) | DepthExhausted(url: string)

  /** One call's outcome: its rendered fragment (or what aborted it) and the trace lines it printed. */
  datatype Walk = Walk(rendered: Result<string, Error>, trace: seq<string>)

  /** A URL is a directory exactly when it ends with `/`. */
  function IsDirectory(url: string): (b: bool)
    ensures b <==> url != [] && url[|url| - 1] == '/'
  {
    EndsWith(url, "/")
  }

  /**
   * The displayed name: every occurrence of the parent URL removed, then
   * percent-decoded. The root, walked with an empty parent, and a URL that
   * does not contain its parent's are shown as their whole URL, decoded.
   */
  function DisplayName(env: Env, url: string, parentUrl: string): (name: string)
    ensures parentUrl == "" ==> name == env.unquote(url)
    ensures parentUrl != "" && !Contains(url, parentUrl) ==> name == env.unquote(url)
  {
    var name := env.unquote(Replace(url, parentUrl, ""));
    if parentUrl != "" && !Contains(url, parentUrl) then
      ReplaceAbsent(url, parentUrl, "");
      name
    else name
  }

  /**
   * The tree-drawing prefix of a trace line: the bars of the enclosing
   * levels, then the branch, which is `` `-- `` on the last child.
   */
  function Prefix(level: int, last: bool): (p: string)
    ensures last ==> EndsWith(p, " `-- ")
    ensures !last ==> EndsWith(p, "-- ")
  {
    if last then
      EndsWithAppended(Strip(Repeat("| ", level - 1)), " `-- ");
      Strip(Repeat("| ", level - 1)) + " `-- "
    else
      EndsWithAppended(Strip(Repeat("| ", level)), "-- ");
      Strip(Repeat("| ", level)) + "-- "
  }

  /**
   * The tree bars of `level` nesting levels: `|` and a space alternating,
   * with no space at either end.
   */
  function Bars(level: int): (b: string)
    ensures |b| == if level <= 0 then 0 else 2 * level - 1
    ensures forall k :: 0 <= k < |b| ==> b[k] == if k % 2 == 0 then '|' else ' '
  {
    if level <= 0 then ""
    else if level == 1 then "|"
    else "| " + Bars(level - 1)
  }

  /** `"| " * level` is the bars followed by one space. */
  lemma {:induction false} RepeatBars(level: int)
    requires level >= 1
    ensures Repeat("| ", level) == Bars(level) + " "
  {
    if level > 1 {
      RepeatBars(level - 1);
      assert "| " + (Bars(level - 1) + " ") == ("| " + Bars(level - 1)) + " ";
    }
  }

  /** Stripping `"| " * level` leaves exactly the bars. */
  lemma StripBars(level: int)
    ensures Strip(Repeat("| ", level)) == Bars(level)
  {
    if level >= 1 {
      RepeatBars(level);
      var s := Bars(level) + " ";
      assert s[0] == '|';
      assert StripLeft(s) == s;
      assert s[..|s| - 1] == Bars(level);
      assert StripRight(Bars(level)) == Bars(level);
    }
  }

  /**
   * The prefix of a trace line: bars for the level and `-- ` for an inner
   * child, one level fewer of bars and `` `-- `` for a last child.
   */
  lemma PrefixShape(level: int)
    ensures Prefix(level, false) == Bars(level) + "-- "
    ensures Prefix(level, true) == Bars(level - 1) + " `-- "
  {
    StripBars(level);
    StripBars(level - 1);
  }

  /** At the root level an inner child gets `-- ` and a last child `` `-- ``, without failing. */
  lemma PrefixAtRoot()
    ensures Prefix(0, false) == "-- " && Prefix(0, true) == " `-- "
  {
    PrefixShape(0);
  }

  /** The terminal hyperlink escape (OSC 8) wrapped around a file's name in the trace. */
  function Hyperlink(url: string, name: string): string {
    "\U{1b}]8;;" + url + "\U{1b}\\" + name + "\U{1b}]8;;\U{1b}\\"
  }

  /**
   * The line one call prints: its tree prefix, then its name, which for a
   * file is wrapped in a hyperlink to its URL.
   */
  function TraceLine(env: Env, url: string, parentUrl: string, level: int, last: bool): (line: string)
    ensures Prefix(level, last) <= line
    ensures IsDirectory(url) ==> EndsWith(line, DisplayName(env, url, parentUrl))
    ensures !IsDirectory(url) ==> EndsWith(line, "\U{1b}]8;;\U{1b}\\")
  {
    var prefix := Prefix(level, last);
    var name := DisplayName(env, url, parentUrl);
    if IsDirectory(url) then
      EndsWithAppended(prefix, name);
      prefix + name
    else
      var link := Hyperlink(url, name);
      EndsWithAppended("\U{1b}]8;;" + url + "\U{1b}\\" + name, "\U{1b}]8;;\U{1b}\\");
      EndsWithExtended(prefix, link, "\U{1b}]8;;\U{1b}\\");
      prefix + link
  }

  /** A trace line spelled out: the prefix, then the name or the hyperlinked name. */
  lemma TraceLineIs(env: Env, url: string, parentUrl: string, level: int, last: bool)
    ensures TraceLine(env, url, parentUrl, level, last)
      == Prefix(level, last) + if IsDirectory(url) then DisplayName(env, url, parentUrl)
                               else Hyperlink(url, DisplayName(env, url, parentUrl))
  {
  }

  /**
   * A template with `{{url}}` and then `{{name}}` substituted; a template
   * holding neither placeholder comes back unchanged.
   */
  function Fill(template: string, url: string, name: string): (r: string)
    ensures !Contains(template, "{{url}}") && !Contains(template, "{{name}}") ==> r == template
  {
    var r := Replace(Replace(template, "{{url}}", url), "{{name}}", name);
    if !Contains(template, "{{url}}") && !Contains(template, "{{name}}") then
      ReplaceAbsent(template, "{{url}}", url);
      ReplaceAbsent(template, "{{name}}", name);
      r
    else r
  }

  /**
   * One call of the walker. A directory reached with no fuel left aborts
   * with `DepthExhausted`; a directory whose page cannot be fetched aborts
   * with `PageUnavailable`; a failing child aborts its parent.
   */
  function Explore(env: Env, url: string, parentUrl: string, level: int, last: bool, fuel: nat): (w: Walk)
    ensures |w.trace| >= 1 && w.trace[0] == TraceLine(env, url, parentUrl, level, last)
    decreases fuel, 0
  {
    var name := DisplayName(env, url, parentUrl);
    var line := TraceLine(env, url, parentUrl, level, last);
    if !IsDirectory(url) then Walk(Success(Fill(env.fileTemplate, url, name)), [line])
    else if fuel == 0 then Walk(Failure(DepthExhausted(url)), [line])
    else match env.fetch(url)
      case None => Walk(Failure(PageUnavailable(url)), [line])
      case Some(page) =>
        var links := ExtractLinks(Some(page));
        var kids := Sequence(ChildWalks(env, url, links, 0, level + 1, fuel - 1));
        var rendered := match kids.rendered
          case Success(html) => Success(Replace(Fill(env.folderTemplate, url, name), "{{children}}", html))
          case Failure(e) => Failure(e);
        Walk(rendered, [line] + kids.trace)
  }

  /**
   * A walk that already produced `html` and printed `trace`, continued by
   * `next`: the fragments are concatenated, or `next`'s failure aborts it.
   */
  function After(html: string, trace: seq<string>, next: Walk): Walk {
    var rendered := match next.rendered
      case Success(more) => Success(html + more)
      case Failure(e) => Failure(e);
    Walk(rendered, trace + next.trace)
  }

  /**
   * The walks of the children of directory `url` from the `i`-th link on:
   * one call per link, in link order, on `url + link` with `url` as the
   * parent, the final link flagged as last.
   */
  function ChildWalks(env: Env, url: string, links: seq<string>, i: nat, level: int, fuel: nat): (ws: seq<Walk>)
    requires i <= |links|
    ensures |ws| == |links| - i
    decreases fuel, |links| - i
  {
    if i == |links| then []
    else [Explore(env, url + links[i], url, level, i == |links| - 1, fuel)] + ChildWalks(env, url, links, i + 1, level, fuel)
  }

  /** The first child walk from the `i`-th link on is that of link `i`. */
  lemma ChildWalksFirst(env: Env, url: string, links: seq<string>, i: nat, level: int, fuel: nat)
    requires i < |links|
    ensures ChildWalks(env, url, links, i, level, fuel)[0] == Explore(env, url + links[i], url, level, i == |links| - 1, fuel)
  {
  }

  /** The later child walks from the `i`-th link on are those from link `i + 1` on. */
  lemma ChildWalksNext(env: Env, url: string, links: seq<string>, i: nat, level: int, fuel: nat, j: nat)
    requires i < |links| && 0 < j < |links| - i
    ensures ChildWalks(env, url, links, i, level, fuel)[j] == ChildWalks(env, url, links, i + 1, level, fuel)[j - 1]
  {
  }

  /**
   * Walks run one after another, the first failure aborting the rest; the
   * first walk's lines are printed whatever happens after it.
   */
  function Sequence(ws: seq<Walk>): (w: Walk)
    ensures ws != [] ==> ws[0].trace <= w.trace
  {
    if ws == [] then Walk(Success(""), [])
    else if ws[0].rendered.Failure? then ws[0]
    else After(ws[0].rendered.value, ws[0].trace, Sequence(ws[1..]))
  }

  /** One more walk in front of a sequence. */
  lemma SequenceCons(w: Walk, ws: seq<Walk>)
    ensures Sequence([w] + ws)
      == if w.rendered.Failure? then w else After(w.rendered.value, w.trace, Sequence(ws))
  {
    assert ([w] + ws)[1..] == ws;
  }

  /** Every walk of `ws` succeeded. */
  predicate AllSucceed(ws: seq<Walk>) {
    forall k :: 0 <= k < |ws| ==> ws[k].rendered.Success?
  }

  /** The fragments of walks that all succeeded, concatenated in order. */
  function Fragments(ws: seq<Walk>): string
    requires AllSucceed(ws)
  {
    if ws == [] then "" else ws[0].rendered.value + Fragments(ws[1..])
  }

  /** The trace lines of walks, concatenated in order. */
  function Traces(ws: seq<Walk>): seq<string> {
    if ws == [] then [] else ws[0].trace + Traces(ws[1..])
  }

  /**
   * When every walk succeeds, the sequence renders their fragments
   * concatenated in order and prints their traces in order.
   */
  lemma {:induction false} SequenceAllSucceed(ws: seq<Walk>)
    requires AllSucceed(ws)
    ensures Sequence(ws) == Walk(Success(Fragments(ws)), Traces(ws))
  {
    if ws != [] {
      SequenceAllSucceed(ws[1..]);
    }
  }

  /**
   * When walk `j` is the first to fail, the sequence fails as it did, having
   * printed the traces of walks `0` through `j` and no more.
   */
  lemma {:induction false} SequenceFirstFailure(ws: seq<Walk>, j: nat)
    requires j < |ws|
    requires forall k :: 0 <= k < j ==> ws[k].rendered.Success?
    requires ws[j].rendered.Failure?
    ensures Sequence(ws) == Walk(ws[j].rendered, Traces(ws[..j + 1]))
  {
    if j == 0 {
      assert ws[..1] == [ws[0]];
      assert Traces(ws[..1]) == ws[0].trace + Traces([]);
    } else {
      SequenceFirstFailure(ws[1..], j - 1);
      assert ws[1..][..j] == ws[..j + 1][1..];
    }
  }

  /** Continuing a continuation is continuing once with both prefixes. */
  lemma AfterAfter(html: string, trace: seq<string>, more: string, moreTrace: seq<string>, next: Walk)
    ensures After(html, trace, After(more, moreTrace, next)) == After(html + more, trace + moreTrace, next)
  {
    assert trace + (moreTrace + next.trace) == trace + moreTrace + next.trace;
    if next.rendered.Success? {
      assert html + (more + next.rendered.value) == html + more + next.rendered.value;
    }
  }

  /** Continuing a walk that produced nothing yet is the continuation itself. */
  lemma AfterNothing(next: Walk)
    ensures After("", [], next) == next
  {
    assert [] + next.trace == next.trace;
    if next.rendered.Success? {
      assert "" + next.rendered.value == next.rendered.value;
    }
  }

  /** Continuing with nothing left to walk is finishing. */
  lemma AfterDone(html: string, trace: seq<string>)
    ensures After(html, trace, Walk(Success(""), [])) == Walk(Success(html), trace)
  {
    assert html + "" == html;
    assert trace + [] == trace;
  }

  /** The fragment a directory renders, in terms of the walk of all its children. */
  lemma ExploreDirectoryRendered(env: Env, url: string, parentUrl: string, level: int, last: bool,
                                 page: string, links: seq<string>, childFuel: nat, kids: Walk)
    requires IsDirectory(url) && env.fetch(url) == Some(page)
    requires links == ExtractLinks(Some(page))
    requires Sequence(ChildWalks(env, url, links, 0, level + 1, childFuel)) == kids
    ensures Explore(env, url, parentUrl, level, last, childFuel + 1).rendered
      == if kids.rendered.Success?
         then Success(Replace(Fill(env.folderTemplate, url, DisplayName(env, url, parentUrl)), "{{children}}", kids.rendered.value))
         else kids.rendered
  {
  }

  /** The trace a directory records, in terms of the walk of all its children. */
  lemma ExploreDirectoryTrace(env: Env, url: string, parentUrl: string, level: int, last: bool,
                              page: string, links: seq<string>, childFuel: nat, kids: Walk)
    requires IsDirectory(url) && env.fetch(url) == Some(page)
    requires links == ExtractLinks(Some(page))
    requires Sequence(ChildWalks(env, url, links, 0, level + 1, childFuel)) == kids
    ensures Explore(env, url, parentUrl, level, last, childFuel + 1).trace == [TraceLine(env, url, parentUrl, level, last)] + kids.trace
  {
  }

  /** A directory's walk in terms of the walk of all its children. */
  lemma ExploreDirectory(env: Env, url: string, parentUrl: string, level: int, last: bool, fuel: nat,
                         page: string, links: seq<string>, childFuel: nat, kids: Result<string, Error>, kidsTrace: seq<string>)
    requires IsDirectory(url) && fuel == childFuel + 1 && env.fetch(url) == Some(page)
    requires links == ExtractLinks(Some(page))
    requires Sequence(ChildWalks(env, url, links, 0, level + 1, childFuel)) == Walk(kids, kidsTrace)
    ensures Explore(env, url, parentUrl, level, last, fuel)
      == Walk(if kids.Success?
              then Success(Replace(Fill(env.folderTemplate, url, DisplayName(env, url, parentUrl)), "{{children}}", kids.value))
              else kids,
              [TraceLine(env, url, parentUrl, level, last)] + kidsTrace)
  {
    ExploreDirectoryRendered(env, url, parentUrl, level, last, page, links, childFuel, Walk(kids, kidsTrace));
    ExploreDirectoryTrace(env, url, parentUrl, level, last, page, links, childFuel, Walk(kids, kidsTrace));
  }

  /** The walks that end without visiting children: a file, a directory out of fuel, a missing page. */
  lemma ExploreShallow(env: Env, url: string, parentUrl: string, level: int, last: bool, fuel: nat)
    ensures var w, line := Explore(env, url, parentUrl, level, last, fuel), TraceLine(env, url, parentUrl, level, last);
      && (!IsDirectory(url) ==> w == Walk(Success(Fill(env.fileTemplate, url, DisplayName(env, url, parentUrl))), [line]))
      && (IsDirectory(url) && fuel == 0 ==> w == Walk(Failure(DepthExhausted(url)), [line]))
      && (IsDirectory(url) && fuel > 0 && env.fetch(url).None? ==> w == Walk(Failure(PageUnavailable(url)), [line]))
  {
  }

  /**
   * `url_tree_explorer`, with the page fetch and `unquote` taken from `env`,
   * the printed lines returned as `trace`, and `fuel` bounding the depth of
   * directories it will descend into.
   */
  method UrlTreeExplorer(env: Env, url: string, parentUrl: string, level: int, last: bool, fuel: nat)
    returns (rendered: Result<string, Error>, trace: seq<string>)
    ensures Walk(rendered, trace) == Explore(env, url, parentUrl, level, last, fuel)
    decreases fuel, 0
  {
    var name := DisplayName(env, url, parentUrl);
    var prefix := Prefix(level, last);
    TraceLineIs(env, url, parentUrl, level, last);
    ExploreShallow(env, url, parentUrl, level, last, fuel);

    if EndsWith(url, "/") {
      trace := [prefix + name];
      var html := Fill(env.folderTemplate, url, name);
      if fuel == 0 {
        rendered := Failure(DepthExhausted(url));
        return;
      }
      var page := env.fetch(url);
      if page.None? {
        rendered := Failure(PageUnavailable(url));
        return;
      }
      var children := ExtractLinks(page);
      assert children == ExtractLinks(Some(page.value));
      var childLevel, childFuel: nat := level + 1, fuel - 1;
      var childrenHtml, childTrace := WalkChildren(env, url, children, childLevel, childFuel);
      trace := trace + childTrace;
      ExploreDirectory(env, url, parentUrl, level, last, fuel, page.value, children, childFuel, childrenHtml, childTrace);
      if childrenHtml.Failure? {
        rendered := childrenHtml;
        return;
      }
      html := Replace(html, "{{children}}", childrenHtml.value);
      rendered := Success(html);
    } else {
      trace := [prefix + Hyperlink(url, name)];
      rendered := Success(Fill(env.fileTemplate, url, name));
    }
  }

  /**
   * The `for` loop of `url_tree_explorer`: walk each child URL `url + href`
   * in link order, the last one flagged as last, appending each child's
   * fragment and trace; the first failing child aborts the loop.
   */
  method WalkChildren(env: Env, url: string, children: seq<string>, level: int, fuel: nat)
    returns (childrenHtml: Result<string, Error>, trace: seq<string>)
    ensures Walk(childrenHtml, trace) == Sequence(ChildWalks(env, url, children, 0, level, fuel))
    decreases fuel, 1
  {
    var html := "";
    trace := [];
    var childCount := |children|;
    AfterNothing(Sequence(ChildWalks(env, url, children, 0, level, fuel)));
    for i := 0 to childCount
      invariant Sequence(ChildWalks(env, url, children, 0, level, fuel))
        == After(html, trace, Sequence(ChildWalks(env, url, children, i, level, fuel)))
    {
      var isLast := i == childCount - 1;
      var childRendered, childTrace := UrlTreeExplorer(env, url + children[i], url, level, isLast, fuel);
      var rest := ChildWalks(env, url, children, i + 1, level, fuel);
      assert ChildWalks(env, url, children, i, level, fuel) == [Walk(childRendered, childTrace)] + rest;
      SequenceCons(Walk(childRendered, childTrace), rest);
      if childRendered.Failure? {
        childrenHtml := childRendered;
        trace := trace + childTrace;
        return;
      }
      AfterAfter(html, trace, childRendered.value, childTrace, Sequence(rest));
      html := html + childRendered.value;
      trace := trace + childTrace;
    }
    AfterDone(html, trace);
    childrenHtml := Success(html);
  }

  /**
   * A file is never fetched and never runs out of depth: whatever the fetch
   * and the bound, it renders the file template with its URL and name.
   */
  lemma FileLeaf(env: Env, url: string, parentUrl: string, level: int, last: bool, fuel: nat,
                 otherFetch: string -> Option<string>, otherFuel: nat)
    requires !IsDirectory(url)
    ensures Explore(env, url, parentUrl, level, last, fuel)
      == Explore(env.(fetch := otherFetch), url, parentUrl, level, last, otherFuel)
    ensures Explore(env, url, parentUrl, level, last, fuel).rendered
      == Success(Fill(env.fileTemplate, url, DisplayName(env, url, parentUrl)))
  {
  }

  // ---------------------------------------------------------------------
  // A directory's rendering
  // ---------------------------------------------------------------------

  /**
   * A directory whose children all succeed renders the folder template with
   * `{{children}}` replaced by the children's fragments in link order, and
   * prints its own line followed by the children's traces in link order.
   */
  lemma DirectoryRendering(env: Env, url: string, parentUrl: string, level: int, last: bool, childFuel: nat, page: string)
    requires IsDirectory(url) && env.fetch(url) == Some(page)
    requires AllSucceed(ChildWalks(env, url, ExtractLinks(Some(page)), 0, level + 1, childFuel))
    ensures var links := ExtractLinks(Some(page));
      var ws := ChildWalks(env, url, links, 0, level + 1, childFuel);
      Explore(env, url, parentUrl, level, last, childFuel + 1)
        == Walk(Success(Replace(Fill(env.folderTemplate, url, DisplayName(env, url, parentUrl)), "{{children}}", Fragments(ws))),
                [TraceLine(env, url, parentUrl, level, last)] + Traces(ws))
  {
    var links := ExtractLinks(Some(page));
    var ws := ChildWalks(env, url, links, 0, level + 1, childFuel);
    SequenceAllSucceed(ws);
    ExploreDirectory(env, url, parentUrl, level, last, childFuel + 1, page, links, childFuel, Success(Fragments(ws)), Traces(ws));
  }

  /**
   * A directory whose child `j` is the first to fail fails as that child did,
   * having printed its own line and the traces of children `0` through `j`.
   */
  lemma DirectoryFirstFailure(env: Env, url: string, parentUrl: string, level: int, last: bool, childFuel: nat, page: string, j: nat)
    requires IsDirectory(url) && env.fetch(url) == Some(page)
    requires var links := ExtractLinks(Some(page));
      var ws := ChildWalks(env, url, links, 0, level + 1, childFuel);
      j < |ws| && (forall k :: 0 <= k < j ==> ws[k].rendered.Success?) && ws[j].rendered.Failure?
    ensures var links := ExtractLinks(Some(page));
      var ws := ChildWalks(env, url, links, 0, level + 1, childFuel);
      Explore(env, url, parentUrl, level, last, childFuel + 1)
        == Walk(ws[j].rendered, [TraceLine(env, url, parentUrl, level, last)] + Traces(ws[..j + 1]))
  {
    var links := ExtractLinks(Some(page));
    var ws := ChildWalks(env, url, links, 0, level + 1, childFuel);
    SequenceFirstFailure(ws, j);
    ExploreDirectory(env, url, parentUrl, level, last, childFuel + 1, page, links, childFuel, ws[j].rendered, Traces(ws[..j + 1]));
  }

  // ---------------------------------------------------------------------
  // Templates
  // ---------------------------------------------------------------------

  /**
   * A template `a{{url}}b{{name}}c` holding each placeholder once is filled
   * with the URL and the name in their places, and is otherwise unchanged.
   */
  lemma FillBoth(a: string, b: string, c: string, url: string, name: string)
    requires forall j :: 0 <= j < |a| ==> !OccursAt(a + "{{url}}" + (b + "{{name}}" + c), "{{url}}", j)
    requires !Contains(b + "{{name}}" + c, "{{url}}")
    requires forall j :: 0 <= j < |a + url + b| ==> !OccursAt(a + url + b + "{{name}}" + c, "{{name}}", j)
    requires !Contains(c, "{{name}}")
    ensures Fill(a + "{{url}}" + (b + "{{name}}" + c), url, name) == a + url + b + name + c
  {
    var rest := b + "{{name}}" + c;
    var head := a + url + b;
    calc {
      Fill(a + "{{url}}" + rest, url, name);
      Replace(Replace(a + "{{url}}" + rest, "{{url}}", url), "{{name}}", name);
      { ReplaceOnce(a, "{{url}}", rest, url); }
      Replace(a + url + rest, "{{name}}", name);
      { Regroup(a + url, b, "{{name}}", c); }
      Replace(head + "{{name}}" + c, "{{name}}", name);
      { ReplaceOnce(head, "{{name}}", c, name); }
      head + name + c;
    }
  }

  /** Concatenation regrouped: `x + (y + z + w)` is `x + y + z + w`. */
  lemma Regroup(x: string, y: string, z: string, w: string)
    ensures x + (y + z + w) == x + y + z + w
  {
  }

  /**
   * A directory whose children all succeed, and whose filled folder template
   * holds `{{children}}` once, renders the children's fragments, in link
   * order, in that place.
   */
  lemma DirectoryChildrenPlaced(env: Env, url: string, parentUrl: string, level: int, last: bool, childFuel: nat,
                                page: string, a: string, b: string)
    requires IsDirectory(url) && env.fetch(url) == Some(page)
    requires AllSucceed(ChildWalks(env, url, ExtractLinks(Some(page)), 0, level + 1, childFuel))
    requires Fill(env.folderTemplate, url, DisplayName(env, url, parentUrl)) == a + "{{children}}" + b
    requires forall j :: 0 <= j < |a| ==> !OccursAt(a + "{{children}}" + b, "{{children}}", j)
    requires !Contains(b, "{{children}}")
    ensures Explore(env, url, parentUrl, level, last, childFuel + 1).rendered
      == Success(a + Fragments(ChildWalks(env, url, ExtractLinks(Some(page)), 0, level + 1, childFuel)) + b)
  {
    var ws := ChildWalks(env, url, ExtractLinks(Some(page)), 0, level + 1, childFuel);
    DirectoryRendering(env, url, parentUrl, level, last, childFuel, page);
    ReplaceOnce(a, "{{children}}", b, Fragments(ws));
  }

  // ---------------------------------------------------------------------
  // Names
  // ---------------------------------------------------------------------

  /** A child `parentUrl + link` is named by its link when the link does not repeat the parent URL. */
  lemma ChildName(env: Env, parentUrl: string, link: string)
    requires parentUrl != "" && !Contains(link, parentUrl)
    ensures DisplayName(env, parentUrl + link, parentUrl) == env.unquote(link)
  {
    ReplaceLeading(parentUrl, link, "");
    ReplaceAbsent(link, parentUrl, "");
    assert "" + link == link;
  }

  /**
   * The parent URL is removed wherever it occurs, not only as a prefix: a
   * child link `mid + parentUrl` (say `b/a/` under `a/`) is named `mid`.
   */
  lemma NameDropsEveryOccurrence(env: Env, parentUrl: string, mid: string)
    requires parentUrl != ""
    requires forall j :: 0 <= j < |mid| ==> !OccursAt(mid + parentUrl, parentUrl, j)
    ensures DisplayName(env, parentUrl + (mid + parentUrl), parentUrl) == env.unquote(mid)
  {
    ReplaceLeading(parentUrl, mid + parentUrl, "");
    assert mid + parentUrl == mid + parentUrl + "";
    ReplaceOnce(mid, parentUrl, "", "");
    assert "" + (mid + "" + "") == mid;
  }

  // ---------------------------------------------------------------------
  // Failures
  // ---------------------------------------------------------------------

  /**
   * A failure blames a directory at or below `url`; a missing page blames one
   * whose fetch indeed returned nothing.
   */
  predicate Blames(env: Env, url: string, e: Error) {
    url <= e.url && IsDirectory(e.url) && (e.PageUnavailable? ==> env.fetch(e.url).None?)
  }

  /** Every aborted walk names the directory below the start URL that aborted it. */
  lemma {:induction false} ExploreFailureBlame(env: Env, url: string, parentUrl: string, level: int, last: bool, fuel: nat)
    ensures var w := Explore(env, url, parentUrl, level, last, fuel);
      w.rendered.Failure? ==> Blames(env, url, w.rendered.error)
    decreases fuel, 0
  {
    if IsDirectory(url) && fuel > 0 && env.fetch(url).Some? {
      var page := env.fetch(url).value;
      var links := ExtractLinks(Some(page));
      var childFuel: nat := fuel - 1;
      var kids := Sequence(ChildWalks(env, url, links, 0, level + 1, childFuel));
      ExploreDirectory(env, url, parentUrl, level, last, fuel, page, links, childFuel, kids.rendered, kids.trace);
      ChildrenFailureBlame(env, url, links, 0, level + 1, childFuel);
    }
  }

  /** Every aborted walk of children names a directory below the parent URL. */
  lemma {:induction false} ChildrenFailureBlame(env: Env, url: string, links: seq<string>, i: nat, level: int, fuel: nat)
    requires i <= |links|
    ensures var w := Sequence(ChildWalks(env, url, links, i, level, fuel));
      w.rendered.Failure? ==> Blames(env, url, w.rendered.error)
    decreases fuel, |links| - i
  {
    if i < |links| {
      var childUrl := url + links[i];
      var child := Explore(env, childUrl, url, level, i == |links| - 1, fuel);
      var rest := ChildWalks(env, url, links, i + 1, level, fuel);
      assert ChildWalks(env, url, links, i, level, fuel) == [child] + rest;
      SequenceCons(child, rest);
      if child.rendered.Failure? {
        ExploreFailureBlame(env, childUrl, url, level, i == |links| - 1, fuel);
        assert url <= childUrl <= child.rendered.error.url;
      } else {
        ChildrenFailureBlame(env, url, links, i + 1, level, fuel);
      }
    }
  }

  /** The walk aborted because the depth bound ran out. */
  predicate Exhausted(w: Walk) {
    w.rendered.Failure? && w.rendered.error.DepthExhausted?
  }

  /** A walk the depth bound did not cut short comes out the same with any larger bound. */
  lemma {:induction false} ExploreFuelMono(env: Env, url: string, parentUrl: string, level: int, last: bool, fuel: nat, more: nat)
    requires fuel <= more && !Exhausted(Explore(env, url, parentUrl, level, last, fuel))
    ensures Explore(env, url, parentUrl, level, last, more) == Explore(env, url, parentUrl, level, last, fuel)
    decreases fuel, 0
  {
    if IsDirectory(url) && env.fetch(url).Some? {
      var page := env.fetch(url).value;
      var links := ExtractLinks(Some(page));
      var childFuel: nat, childMore: nat := fuel - 1, more - 1;
      var kids := Sequence(ChildWalks(env, url, links, 0, level + 1, childFuel));
      ExploreDirectory(env, url, parentUrl, level, last, fuel, page, links, childFuel, kids.rendered, kids.trace);
      ChildrenFuelMono(env, url, links, 0, level + 1, childFuel, childMore);
      ExploreDirectory(env, url, parentUrl, level, last, more, page, links, childMore, kids.rendered, kids.trace);
    }
  }

  /** The same for the walk of a directory's children. */
  lemma {:induction false} ChildrenFuelMono(env: Env, url: string, links: seq<string>, i: nat, level: int, fuel: nat, more: nat)
    requires i <= |links| && fuel <= more
    requires !Exhausted(Sequence(ChildWalks(env, url, links, i, level, fuel)))
    ensures Sequence(ChildWalks(env, url, links, i, level, more)) == Sequence(ChildWalks(env, url, links, i, level, fuel))
    decreases fuel, |links| - i
  {
    if i < |links| {
      var last := i == |links| - 1;
      var child := Explore(env, url + links[i], url, level, last, fuel);
      var rest := ChildWalks(env, url, links, i + 1, level, fuel);
      var restMore := ChildWalks(env, url, links, i + 1, level, more);
      assert ChildWalks(env, url, links, i, level, fuel) == [child] + rest;
      assert ChildWalks(env, url, links, i, level, more)
        == [Explore(env, url + links[i], url, level, last, more)] + restMore;
      SequenceCons(child, rest);
      SequenceCons(Explore(env, url + links[i], url, level, last, more), restMore);
      ExploreFuelMono(env, url + links[i], url, level, last, fuel, more);
      if child.rendered.Success? {
        ChildrenFuelMono(env, url, links, i + 1, level, fuel, more);
      }
    }
  }

  /** A directory with one link has one child walk: that of the link, which is the last. */
  lemma OnlyChild(env: Env, url: string, link: string, level: int, fuel: nat)
    ensures ChildWalks(env, url, [link], 0, level, fuel) == [Explore(env, url + link, url, level, true, fuel)] + []
  {
    assert ChildWalks(env, url, [link], 1, level, fuel) == [];
  }

  /** The page listing only `./` has that one link. */
  lemma SelfListing()
    ensures ExtractLinks(Some(Listing(["./"]))) == ["./"]
  {
    assert PlainHref("./");
    ListingRoundTrip(["./"]);
  }

  /**
   * When every page's only link is `./`, each directory has the child
   * directory `url + "./"`, so the chain of directories never ends:
   * whatever the depth bound, the walk runs out of it.
   */
  lemma {:induction false} SelfLinkExhausts(env: Env, page: string, url: string, parentUrl: string, level: int, last: bool, fuel: nat)
    requires IsDirectory(url)
    requires forall u :: env.fetch(u) == Some(page)
    requires ExtractLinks(Some(page)) == ["./"]
    ensures Exhausted(Explore(env, url, parentUrl, level, last, fuel))
    decreases fuel
  {
    if fuel > 0 {
      var links := ExtractLinks(Some(page));
      var childFuel: nat := fuel - 1;
      var childUrl := url + links[0];
      assert IsDirectory(childUrl) by {
        assert childUrl[|childUrl| - 1..] == "/";
      }
      SelfLinkExhausts(env, page, childUrl, url, level + 1, true, childFuel);
      var child := Explore(env, childUrl, url, level + 1, true, childFuel);
      OnlyChild(env, url, links[0], level + 1, childFuel);
      SequenceCons(child, []);
      var kids := Sequence(ChildWalks(env, url, links, 0, level + 1, childFuel));
      assert kids.rendered == child.rendered;
      ExploreDirectory(env, url, parentUrl, level, last, fuel, page, links, childFuel, kids.rendered, kids.trace);
    }
  }

  /** A site whose every page is the listing of `./` alone is walked until the depth bound runs out. */
  lemma SelfLinkingSiteExhausts(env: Env, url: string, parentUrl: string, level: int, last: bool, fuel: nat)
    requires IsDirectory(url)
    requires forall u :: env.fetch(u) == Some(Listing(["./"]))
    ensures Exhausted(Explore(env, url, parentUrl, level, last, fuel))
  {
    SelfListing();
    SelfLinkExhausts(env, Listing(["./"]), url, parentUrl, level, last, fuel);
  }
}
