# Douyin share-link handler — a Dafny model

This project models the message handler of the AstrBot plugin `astrbot_plugin_douyin`.
The plugin watches chat messages for Douyin short-video share links (`https://v.douyin.com/…`).
It asks a parsing service about the link and posts the result back to the chat.

Three pure decisions inside `on_message` are modelled and proved:

- **Admission** (`Gating`): a group message passes when the group whitelist is empty, or when
  `str(group_id)` equals `str(g)` for some whitelist entry `g`. A private message (falsy group id)
  passes when `enable_in_private` is truthy. An absent setting counts as true.
- **Link search** (`LinkScan`): `re.search` with `https?://v\.douyin\.com/[A-Za-z0-9_\-]+/?`.
  The pattern's language is the predicate `IsLink`. The scanner is proved to return the leftmost
  match, and the longest one at that start. For this pattern the longest match is also the one
  Python's backtracking engine returns: the identifier class excludes `/`, so the greedy `+`
  takes the whole run and `/?` takes a slash exactly when one follows.
- **Reply dispatch** (`Responses`): the parsed service reply becomes an ordered list of outputs,
  `Plain(text) | Video(url) | Image(url)`. These are a failure notice, an info line followed by the
  video or the gallery images, or an "unsupported content type" notice. The outputs are proved to
  determine the branch taken (`ReadBack`). The info line determines author and title whenever the
  author name contains no newline.

`Handler.OnMessage` composes the three. The HTTP request is a parameter `api` that maps a link to
either the decoded reply or the text of the failure raised while fetching it.

Python values are modelled by `PyValue.Value` (`None`, `bool`, `int`, `str`). The model includes
their truthiness, `str()` (integers through `Decimal`, with a proved parse round trip) and `==`
against a literal. `True == 1` holds, as in Python. `dict.get(key, default)` is an `Option`, so an
absent key differs from a key whose value is null.

Files: `optional.dfy`, `decimal.dfy`, `pyvalue.dfy`, `gating.dfy`, `linkscan.dfy`,
`responses.dfy`, `handler.dfy`.

## Model

| member | source | states |
|---|---|---|
| Gating.InStrList | main.py:25 | membership in `[str(g) for g in whitelist]` holds iff some entry's `str` equals the key |
| Gating.Admits | main.py:22-30 | a truthy group id is admitted iff the whitelist is empty or some entry has the same `str`; a falsy one iff `enable_in_private` is truthy (default true) |
| Gating.EmptyWhitelistAdmitsGroups | main.py:24-25 | with an absent, null or empty whitelist every group message is admitted |
| Gating.ListedGroupAdmitted | main.py:25 | a group whose `str` matches any whitelist entry is admitted |
| Gating.NumericGroupMatchesSpelledEntry | main.py:25 | a numeric group id matches a whitelist entry spelled as its decimal string |
| Gating.SpelledGroupMatchesNumericEntry | main.py:25 | a group id given as a string matches a numeric whitelist entry with that decimal spelling |
| Gating.PrivateIgnoresWhitelist | main.py:27-30 | for private messages the whitelist has no influence on admission |
| Gating.PrivateDefaultsToEnabled | main.py:29 | private messages are admitted when `enable_in_private` is not configured |
| Gating.GroupIgnoresPrivateSwitch | main.py:23-26 | for group messages `enable_in_private` has no influence on admission |
| PyValue.ToStrIntInjective | main.py:25 | comparing `str(a) == str(b)` for integers is integer equality |
| PyValue.ToStrIntMatchesString | main.py:25 | an int and a string compare equal under `str` iff the string is the int's decimal spelling |
| Decimal.ParseIntToDecimal | main.py:25 | the `str` spelling of an integer parses back to that integer |
| Decimal.IntToDecimalInjective | main.py:25 | distinct integers have distinct `str` spellings |
| LinkScan.RunEnd | main.py:9 | returns the end of the maximal `[A-Za-z0-9_-]` run: every character before it is in the class, the one at it is not |
| LinkScan.LinkShape | main.py:9 | any link at a position begins with the prefix found there and ends within the identifier run or right after a slash closing it |
| LinkScan.MatchEndAtCorrect | main.py:9 | the anchored matcher finds a link iff one starts at that position, and the longest one |
| LinkScan.SearchFrom | main.py:33 | from a start index, returns no span iff no link starts at or after it, else the leftmost start and the longest link there |
| LinkScan.Search | main.py:33 | `re.search` returns no match iff no substring is a link; otherwise the leftmost-longest span |
| LinkScan.FindLink | main.py:33-37 | `match.group(0)` is a link and is the leftmost-longest substring of the text |
| LinkScan.LeftmostLongestUnique | main.py:33 | at most one span is leftmost-longest, so the match is determined by the text |
| LinkScan.FoundLinkIsMaximal | main.py:9 | the match starts with `http://v.douyin.com/` or `https://v.douyin.com/`, its identifier run is not followed by a class character, and it keeps a following `/` |
| LinkScan.MatchEndAtSound | main.py:9 | the span the anchored matcher reports is a link |
| LinkScan.FindLinkAfterPrefix | main.py:33-37 | in a text where no link prefix starts before an https prefix that is followed by an identifier run, the found link is the prefix with the whole run, plus the slash when one follows |
| Responses.ImageOutputs | main.py:67-68 | one image output per gallery URL, in list order |
| Responses.Decide | main.py:50-70 | failure iff `code != 1`; unsupported iff neither a video with a URL nor a gallery with images; otherwise the info line and at least one media item |
| Responses.Dispatch | main.py:50-70 | the outputs for each branch: the failure notice with `msg` or "未知错误", info and video, info and one image per URL, or the unsupported-type notice |
| Responses.FirstNewline | main.py:61 | finds the first newline of a string, or reports there is none |
| Responses.InfoLineRoundTrip | main.py:61 | the info line determines the author and the optional title, when the author has no newline |
| Responses.DecideWellFormed | main.py:60-68 | an info line starts with "作者: " and media outputs are never text |
| Responses.ReadBackRender | main.py:52-70 | the rendered messages of a well-formed verdict read back to that verdict |
| Responses.RenderReadBack | main.py:52-70 | whatever `ReadBack` accepts renders back to the same messages |
| Responses.ReadBackInjective | main.py:52-70 | two message lists that read back to the same verdict are equal, so a verdict fixes the exact messages |
| Responses.DispatchReadsBack | main.py:50-70 | the outputs for any reply determine which branch was taken, and with which text |
| Responses.DispatchShape | main.py:50-70 | every reply gives at least one output; the first is text and no later one is |
| Handler.ReplyOutputs | main.py:41-53 | a failed request gives exactly the failure notice with the error text; a decoded reply gives outputs that read back to its verdict, which by `ReadBackInjective` fixes them exactly |
| Handler.OnMessage | main.py:20-70 | no outputs when not admitted or no link is found; otherwise the outputs for the service's answer about the leftmost-longest link |
| Handler.SilentIff | main.py:22-37 | the handler is silent iff the event is not admitted or its text has no link |
| Handler.OnlyTheLinkIsQueried | main.py:37-43 | the outputs depend on the service only through its answer for the found link |

## Left out

- The HTTP request itself is left out (`httpx.AsyncClient`, its 30-second timeout, redirects, JSON decoding). It is I/O, so it is the parameter `api`. A raised exception is `ApiReply.RequestFailed` carrying its `str`.
- The AstrBot framework is left out (`register`, `Star`, the event filter, `plain_result`/`chain_result`, `Comp.Video`/`Comp.Image`). These are foreign library calls. Outputs are the abstract constructors `Plain`, `Video` and `Image`.
- Logging and `terminate` are left out: the `logger` calls only write log records, no chat output depends on them, and `terminate` does nothing.
- Async generator semantics are left out: the yielded results are a plain sequence in yield order.
- Floats, lists and dicts as scalar fields are left out. A float `code` of `1.0` (equal to 1 in Python) is not modelled.
- A `video` that is not a string or null is left out. In the source a truthy non-string `video`, such as a dict, still takes the video branch and yields the info line and a `Video` built from that value; the model cannot represent this.
- An `images` value that is not a list of strings or null is left out. In the source a non-empty string `images` yields one `Image` per character of the string; the model cannot represent this.
- A `group_whitelist` that is not a list is left out: the whitelist is modelled only as a list of None/bool/int/str entries (or absent/null). In the source a configured string such as `"123"` is iterated character by character, so group `"1"` would be admitted; the model cannot represent this.
- A reply that is valid JSON but not an object is left out. `data.get` would raise outside the `try` block.
