# HTML-Tree-Generator: a verified model of the crawler core

HTML-Tree-Generator rebuilds a directory tree from a web server's HTML index pages.
It starts at a root URL. A URL that ends in `/` is a directory: its listing page is
fetched, the `href` of every `<a …>…</a>` element is extracted, and each link is walked
in turn. Any other URL is a file. Every visited node prints one line of an ASCII tree
to the terminal. Every node also returns its own fragment of a folder or file HTML
template, and a directory's children's fragments are nested into `{{children}}`.

The model has four modules:

- `Wrappers` has `Option` and `Result`.
- `PyStr` has the Python string built-ins the crawler relies on, with CPython's
  semantics:
  - `str.find`, including a negative start, which counts from the end;
  - slicing with negative and out-of-range bounds;
  - `str.split` at leftmost non-overlapping occurrences;
  - `str.replace`, including the empty pattern;
  - `str * int`, which gives `""` for a count of zero or less;
  - `str.strip`, with `isspace`'s code points;
  - `str.endswith`.
- `Links` has `get_href_from_link_element` (`GetHref`) and
  `get_all_links_in_html_form` (`ExtractLinks`). They are pure functions. Their
  behaviour is pinned down by lemmas:
  - the quote cases;
  - link order;
  - a round trip through a generated listing page.
- `Walker` has `url_tree_explorer`:
  - `Explore` is the specification of one call. It is a function that returns the
    rendered fragment, or the error that aborted the call, together with the lines
    printed.
  - `UrlTreeExplorer` and `WalkChildren` are the imperative walker. They keep the
    source's accumulating `for` loop, and each is proved equal to the specification.
  - The page fetch and `unquote` are fields of an `Env` parameter.
  - A `fuel` bound on the depth stands in for the interpreter's recursion limit, which is what stops the source's recursion on a cyclic or too-deep site.

## Model

| member | source | states |
|---|---|---|
| PyStr.FindFrom | main.py:32-34 | the result is -1 or an occurrence at or after the start. No occurrence comes before it. It is -1 exactly when nothing occurs from the start on |
| PyStr.Find | main.py:32-34 | `s.find(sub, start)` after Python's start normalisation: -1 or the first occurrence at or after the normalised start |
| PyStr.FindFromIs | main.py:32-34 | the search lands on `p` when `sub` occurs at `p` and nowhere between the start and `p` |
| PyStr.OccursAtChar | main.py:33-34 | a one-character pattern occurs exactly at the positions holding that character |
| PyStr.SliceBound | main.py:39 | a normalised slice bound lies within the string |
| PyStr.Slice | main.py:39 | a slice occurs in the string at the normalised start. Its length is the distance between the normalised bounds, or 0 when they cross |
| PyStr.SliceAt | main.py:39 | character `k` of `s[i:j]` is `s[i+k]`, and it lies before `j`, or before the last character when `j` is -1 |
| PyStr.Split | main.py:55 | `split` yields at least one part, and joining the parts with the separator gives back the string |
| PyStr.SplitPartsFree | main.py:55 | no part of a split contains the separator |
| PyStr.SplitAbsent | main.py:55 | a string without the separator splits into itself alone |
| PyStr.SplitLeading | main.py:55 | a leading separator gives an empty first part |
| PyStr.Replace | main.py:60 | replacing a pattern by itself changes nothing. `ReplaceAbsent`, `ReplaceLeading` and `ReplaceOnce` state the other cases |
| PyStr.ReplaceAbsent | main.py:60 | a pattern that does not occur leaves the string unchanged |
| PyStr.ReplaceLeading | main.py:60 | a leading occurrence becomes the replacement and replacing continues on the rest |
| PyStr.ReplaceOnce | main.py:60 | a pattern occurring once is replaced by exactly the value, in place |
| PyStr.Repeat | main.py:63-65 | `s * n` is empty for a count of zero or less, and otherwise starts with a copy of `s` |
| PyStr.RepeatLength | main.py:63-65 | `s * n` has length `n*len(s)`, and 0 for a count of zero or less |
| PyStr.StripLeftSpec | main.py:63-65 | `lstrip` keeps the suffix from the first non-whitespace character and drops only whitespace |
| PyStr.StripRightSpec | main.py:63-65 | `rstrip` keeps the prefix up to the last non-whitespace character and drops only whitespace |
| PyStr.Strip | main.py:63-65 | `strip` returns a contiguous part of the string with no whitespace at either end. Everything dropped before it and after it is whitespace |
| Links.GetHref | main.py:24-39 | the link is `""`, or it occurs in the fragment right after the first quote at or after the first `href` |
| Links.Hrefs | main.py:56 | the map gives exactly one href per fragment |
| Links.NonEmpty | main.py:56 | the filter keeps no empty string, invents nothing and never lengthens the list |
| Links.ExtractLinks | main.py:52-56 | no page gives no links, no link is empty, and there is at most one link per `</a>` fragment |
| Links.FindQuote | main.py:33-34 | the quote search from `i` lands on the first quote at or after `i` |
| Links.FindNoQuote | main.py:33-34 | the quote search gives -1 when no quote stands at or after the start |
| Links.FindHref | main.py:32 | the `href` search lands on the first occurrence of `href` |
| Links.HrefSlice | main.py:32-39 | with a first `href` at `h`, the next quote at `q` and the following quote at `e`, the link is `raw[q+1..e]` |
| Links.HrefBetweenQuotes | main.py:33-39 | with both quotes present after `href`, the link is exactly the text between them and contains no quote |
| Links.HrefUnclosed | main.py:33-39 | with an opening quote but no closing one, `end` is -1 and the link runs to one character before the end of the fragment |
| Links.HrefWithoutQuote | main.py:32-37 | no quote at or after the first `href` gives `""` |
| Links.HrefHasNoQuote | main.py:33-39 | whatever the fragment, its link contains no double quote |
| Links.NoHrefNoLink | main.py:32-37 | a fragment with no `href` gives `""`. The search from -1 looks only at the last character, and either way the result is empty |
| Links.NonEmptyConcat | main.py:56 | filtering distributes over concatenation |
| Links.NonEmptyKeepsAll | main.py:56 | filtering a list with no empty string returns it unchanged |
| Links.NonEmptyAt | main.py:56 | a kept element lands at the index given by the number of elements kept before it |
| Links.NonEmptyOrder | main.py:56 | two kept elements keep their relative order |
| Links.HrefsPrefix | main.py:56 | mapping the extractor commutes with taking a prefix of the fragments |
| Links.LinksInFragmentOrder | main.py:55-56 | the non-empty hrefs of fragments `i < j` are links `Rank(i) < Rank(j)`, in fragment order |
| Links.AnchorBodyHref | main.py:24-39 | the extractor returns `h` from `<a href="h">h` when `h` is non-empty and has no quote or `<` |
| Links.SplitListing | main.py:55 | splitting a generated listing on `</a>` gives each anchor's body in order, then an empty tail |
| Links.HrefsOfListing | main.py:55-56 | the hrefs of a listing's fragments are the listed hrefs followed by one `""` |
| Links.ListingRoundTrip | main.py:42-56 | extracting the links of a listing of plain hrefs gives back exactly those hrefs, in order |
| Walker.IsDirectory | main.py:68 | a URL is a directory exactly when its last character is `/` |
| Walker.DisplayName | main.py:60 | the root, walked with an empty parent URL, is named `unquote(url)`. So is a URL that does not contain its parent URL |
| Walker.Prefix | main.py:62-65 | a last child's prefix ends in ``" `-- "`` and any other prefix ends in `"-- "`. `PrefixShape` gives the exact shape |
| Walker.Bars | main.py:62-65 | the bars of `level` are the bar character and a space alternating, with length `2*level-1`, or empty when `level <= 0` |
| Walker.RepeatBars | main.py:63-65 | the bar-and-space pair repeated `level` times is the bars followed by one space |
| Walker.StripBars | main.py:63-65 | stripping the bar-and-space pair repeated `level` times leaves exactly the bars, for every level including negative ones |
| Walker.PrefixShape | main.py:62-65 | a non-last prefix is `Bars(level) + "-- "`, and a last prefix is ``Bars(level-1) + " `-- "`` |
| Walker.PrefixAtRoot | main.py:62-65 | at level 0 the prefixes are `"-- "` and ``" `-- "``, without failing |
| Walker.TraceLine | main.py:69-85 | the printed line starts with the prefix. A directory's line ends with its name, and a file's line ends with the hyperlink terminator |
| Walker.Fill | main.py:70 | a template holding neither `{{url}}` nor `{{name}}` comes back unchanged |
| Walker.Explore | main.py:59-86 | the first line every call prints is its own prefix and name, before any child's line |
| Walker.ChildWalks | main.py:74-78 | a directory whose page yields n links gets exactly n child walks |
| Walker.ChildWalksFirst | main.py:76-78 | the first child walk from link `i` on walks `url + links[i]` with parent `url`, and is last iff `i == n-1` |
| Walker.ChildWalksNext | main.py:76-78 | the later child walks from link `i` on are those from link `i+1` on, in order |
| Walker.Sequence | main.py:76-78 | the first walk's lines are printed whatever happens after it. `SequenceAllSucceed` and `SequenceFirstFailure` give the whole result |
| Walker.SequenceAllSucceed | main.py:74-80 | when all children succeed, their fragments are concatenated in order and their traces too |
| Walker.SequenceFirstFailure | main.py:74-78 | when child `j` is the first to fail, the walk fails as it did, after printing the traces of children `0..j` only |
| Walker.UrlTreeExplorer | main.py:59-86 | the imperative walker returns exactly the fragment or failure and the trace of `Explore` |
| Walker.WalkChildren | main.py:74-78 | the accumulating loop over the children equals the in-order, abort-on-failure sequence of the child walks |
| Walker.FileLeaf | main.py:84-86 | a file is never fetched and never depth-limited, and renders the file template with its URL and name |
| Walker.DirectoryRendering | main.py:68-82 | a directory whose children all succeed renders `{{children}}` as their fragments concatenated in link order. Its trace is its line followed by their traces in order |
| Walker.DirectoryFirstFailure | main.py:71-78 | a directory whose child `j` fails first fails as that child did, with the trace cut after child `j` |
| Walker.FillBoth | main.py:70 | a template `a{{url}}b{{name}}c` holding each placeholder once becomes `a + url + b + name + c`: each placeholder receives its value in place and the rest is kept |
| Walker.DirectoryChildrenPlaced | main.py:70-82 | when all children succeed and the filled folder template is `a{{children}}b` with one placeholder, the directory renders `a`, then the children's fragments in link order, then `b` |
| Walker.ChildName | main.py:60 | a child `parent + link` is named `unquote(link)` when the link does not contain the parent URL |
| Walker.NameDropsEveryOccurrence | main.py:60 | `replace` removes the parent URL everywhere, so `parent + mid + parent` is named `unquote(mid)` |
| Walker.ExploreFailureBlame | main.py:71 | an aborted walk names a directory URL extending the start URL, and a missing page names one whose fetch failed |
| Walker.ChildrenFailureBlame | main.py:74-78 | an aborted child walk names a directory URL extending the parent URL |
| Walker.ExploreFuelMono | main.py:59-86 | a walk the depth bound did not cut short comes out the same with any larger bound |
| Walker.ChildrenFuelMono | main.py:74-78 | the same for the walk of a directory's children |
| Walker.OnlyChild | main.py:76-78 | a directory with one link has one child walk, and it is flagged last |
| Walker.SelfListing | main.py:42-56 | the page listing only `./` yields the single link `./` |
| Walker.SelfLinkExhausts | main.py:68-78 | when every page's only link is `./`, the walk never ends within any depth bound |
| Walker.SelfLinkingSiteExhausts | main.py:68-78 | a site whose every page lists only `./` exhausts every depth bound. The source keeps no visited set, so it recurses until CPython's recursion limit raises `RecursionError` |

## Left out

- `get_html_as_string_from_url` (main.py:5-21) does network I/O and UTF-8 decoding. It is modelled as `Env.fetch`:
  - a page that cannot be fetched (`None`) aborts the walk with `PageUnavailable`;
  - in the source the exception is not caught, so the whole run aborts.
- `main` (main.py:89-113) is not modelled. It reads input, reads the templates and the layout, joins lines with `reduce`, substitutes `{{tree}}` and writes the file, which is all I/O.
- `unquote` (main.py:3, 60) lives in urllib and is modelled as the uninterpreted `Env.unquote`. Name properties hold for any decoder.
- `print` (main.py:69, 85) is modelled as the trace of lines a walk returns, and there is no standard output. A line printed before a failure stays in the trace, as it stays on the terminal.
- The terminal hyperlink escape (OSC 8) around a file's name (main.py:85) is kept as the literal string `Hyperlink`. Nothing is proved about how terminals show it.
- The interpreter's recursion limit is not modelled as such:
  - the source has no visited set, so on a cyclic site it recurses until CPython's recursion limit (1000 frames by default) raises `RecursionError`, which nothing catches, so the run aborts;
  - the model takes a `fuel` depth bound in its place and fails with `DepthExhausted` when it runs out;
  - `SelfLinkingSiteExhausts` shows a cyclic site exhausts every bound.
- `fuel` stands in for the recursion limit, but the model does not fix its value. A finite site nested deeper than the limit aborts in the source, and the model walks it to the end when given enough fuel.
- `str.isspace` is the explicit code-point set of `PyStr.IsSpace`, which has no Unicode database.
- `Split` is modelled only for a non-empty separator. The one separator used is `"</a>"`, and Python raises `ValueError` for an empty one.
- PyStr.Find: the contract says the result is the first occurrence at or after the normalised start, or -1. It does not say that -1 means no occurrence; `FindFrom`, which `Find` is defined by, states that direction.
- Walker.ChildWalksNext: the child walks are described step by step:
  - `ChildWalksFirst` gives the head;
  - `ChildWalksNext` gives the shift;
  - the loop of `WalkChildren` gives the order;
  - there is no single lemma for the walk of child `k` at index `k`.
- Display names: `url.replace(parent_url, "")` removes every occurrence of the parent URL, not only a leading one. `NameDropsEveryOccurrence` shows a name where the two differ.
