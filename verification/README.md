# substack2md core, modelled in Dafny

`substack2md.py` turns Substack articles into Obsidian-style Markdown notes. A
headless Chrome renders each page, driven over the Chrome DevTools Protocol
(CDP). This project models the deterministic parts of that script as pure Dafny
functions and proves properties about them:

- **Text and URL normalisers:**
  - `slugify`, `normalize_tags`, `cleanup_url`;
  - the transcript scrubber;
  - the two blank-line passes;
  - the publication, slug and keyword derivations in `extract_article_fields`;
  - `get_publication_name`.
- **The link rewriter:**
  - the body is scanned into plain, link and wiki-link segments;
  - links are rewritten against a given URL → note-stem index.
- **The CDP client:**
  - request/response correlation in `CDPClient.send`;
  - event matching in `recv_event_until`;
  - `fetch_html`: open a tab, poll for readiness, fall back, close.
- **The archive harvest:** the scroll-and-collect loop of
  `fetch_archive_urls_via_cdp`, with its convergence rule and sorted result.

Modules, one per concern:

| module | file | models |
|---|---|---|
| `Wrappers` | wrappers.dfy | `Option`, `Result` |
| `Seqs` | seqs.dfy | filter, map and subsequence helpers |
| `Text` | text.dfy | Python's `str.isspace`, `strip`, `split`, `lower` and regex run replacement |
| `Lines` | lines.dfy | `str.splitlines` and `"\n".join` |
| `Slug` | slug.dfy | `slugify` |
| `Tags` | tags.dfy | `normalize_tags` and the keyword split |
| `IpAddress` | ipaddress.dfy | the `ipaddress` grammars that `urlsplit` checks a bracketed host against |
| `Urls` | urls.dfy | `urllib.parse.urlsplit` / `urlunsplit` and `cleanup_url` |
| `Article` | article.dfy | publication, slug and title derivations; `get_publication_name` |
| `Transcript` | transcript.dfy | `TIME_RE`, `SPEAKER_RE` and `scrub_transcript_lines` |
| `BlankLines` | blanklines.dfy | `remove_blank_after_headings` and `collapse_blank_lines_in_lists` |
| `Links` | links.dfy | `LINK_RE` and `rewrite_internal_links` |
| `Cdp` | cdp.dfy | JSON values, `CDPClient.send` and `recv_event_until` |
| `Fetch` | fetch.dfy | `CDPClient.fetch_html` |
| `Archive` | archive.dfy | `fetch_archive_urls_via_cdp` |

## How the I/O is modelled

**The socket.** The WebSocket is a connection value
`Conn(msgId, inbox, sent)`:

- `inbox` is the finite sequence of frames the browser will deliver;
- `sent` is the log of requests written so far;
- a frame that fails to parse (`json.loads` raising) is the `Broken` frame;
- running out of inbox stands for `ws.recv()` raising.

**Deadlines.** Every wall-clock deadline becomes a count:

- `recv_event_until` looks at no more than `budget` frames;
- the readiness poll of `fetch_html` makes at most `polls` evaluations;
- the sleeps disappear.

**JavaScript.** The expressions that `fetch_html` and the archive loop evaluate
are opaque string parameters. The values they return come from the inbox.

**Python truthiness.** Truthiness of JSON values is `Cdp.Truthy`. Python's
`==` on JSON values (`1 == True`, element-wise on lists and dicts) is `Cdp.PyEq`; it
decides the event and session match, and the reply-id comparison is its special case
`Cdp.EqualsInt`.

**URL splitting.** `urllib.parse.urlsplit`/`urlunsplit` are modelled after CPython
3.12.13 (the patch level matters, see "## Left out"):

- leading C0 control characters and spaces are stripped;
- `\t\r\n` are removed;
- a scheme is recognised;
- a `//` netloc is recognised;
- the `#` split comes first, then the `?` split;
- an unbalanced IPv6 bracket raises `ValueError`, modelled as `InvalidIPv6`;
- a netloc holding both `[` and `]` is checked as `_check_bracketed_netloc` does: after
  the last `@`, text before `[` or anything but a `:` port after `]` is `InvalidIPv6`, and
  the bracketed host must be an IPvFuture literal (`InvalidIPvFuture`) or an
  `ipaddress` IPv6 address; an IPv4 address is `BracketedIPv4`, anything else
  `NotAnAddress`;
- `urlunsplit` uses its `uses_netloc` list and the three-branch netloc rule of 3.12.13.

**Where the documented intent and the code disagree, the model follows the code:**

- **The `"substack"` tag.** It is inserted first only when no input tag
  normalises to it. Otherwise it keeps its first-seen position (`Tags.NormalizeTags`).
- **`cleanup_url` on URLs without a query.** It is not the identity. `urlsplit`
  lowercases the scheme, so `HTTPS://x/` becomes `https://x/`
  (`Urls.CleanupLowersScheme`). It also drops a bare `?` or `#`.
- **Convergence in the archive loop.** The loop stops at the third consecutive
  round that leaves the set's size unchanged. The first round never counts,
  because `last_count` starts at -1. Sizes 3, 5, 5, 5 therefore do not yet
  converge; a fifth round of size 5 is needed. A harvest that converges has read
  at least `StableRounds + 1` rounds, and its result is the union of all rounds
  but the last three (`Archive.ConvergedFromStart`).
- **Tab teardown.** The browser tab is not closed on every exit path. See
  Findings.

## Model

| member | source | states |
|---|---|---|
| Text.Lower | substack2md.py:148 | lowering keeps the length and maps every character by ASCII `lower` |
| Text.LowerFixed | substack2md.py:148 | text without upper-case letters is unchanged by `lower` |
| Text.SplitOn | substack2md.py:334 | `str.split(sep)`: at least one part, no part contains the separator, and joining the parts with the separator gives back the input |
| Text.SplitJoin | substack2md.py:334 | splitting a separator-free join recovers exactly the parts |
| Text.BlankIsAllSpace | substack2md.py:199 | `strip() == ""` holds exactly when every character is whitespace |
| Text.StripFrame | substack2md.py:334 | stripping whitespace around a word whose ends are not whitespace gives the word |
| Text.ReplaceRuns | substack2md.py:150 | `re.sub(r"[…]+", c, s)`: empty iff the input is empty; the replacement never occurs twice in a row when it is itself in the class; every other character is outside the class |
| Text.ReplaceRunsContent | substack2md.py:150 | characters outside the run class and different from the replacement pass through in order |
| Text.ReplaceRunsAppend | substack2md.py:150 | the substitution works piecewise on the two sides of a cut after a character outside the class |
| Text.ReplaceRunsRun | substack2md.py:150 | a maximal run of class characters between two characters outside the class becomes exactly one replacement character |
| Text.ReplaceRunsFixed | substack2md.py:150 | a string whose class characters are all single replacement characters is a fixed point |
| Lines.SplitLines | substack2md.py:182 | `splitlines()` yields lines free of line breaks, and no lines exactly for empty text |
| Lines.SplitJoinLines | substack2md.py:191-192 | splitting the `"\n"`-join of break-free lines whose last line is not empty recovers the lines |
| Lines.JoinSplitLines | substack2md.py:191-192 | for `\n`-only text without a trailing newline, joining the split lines gives the text back |
| Slug.Slugify | substack2md.py:147-152 | the result is a slug (only `a-z`, `0-9` and `-`; no `--`; no leading or trailing `-`) and its letters and digits are the input's, lowered, in order |
| Slug.SlugFixed | substack2md.py:147-152 | every slug is a fixed point of `slugify` |
| Slug.SlugifyIdempotent | substack2md.py:147-152 | `slugify(slugify(s)) == slugify(s)` |
| Slug.TrimHyphens | substack2md.py:151 | `re.sub(r"^-+\|-+$", "", s)` on newline-free text: the input is a run of hyphens, the result, and another run of hyphens, and the result neither starts nor ends with `-` |
| Slug.SlugifySeparated | substack2md.py:147-152 | two slugs with any run of whitespace, `_` and `-` between them give the two slugs joined by one `-` |
| Tags.NormalizeTag | substack2md.py:164-165 | a normalised tag has no whitespace or upper-case letter, is empty exactly when the stripped input is, and keeps the characters of the stripped, lowered input other than whitespace and `-`, in order |
| Tags.NormalizeTagWords | substack2md.py:164-165 | two normal tags with a whitespace run between them give the two tags joined by one `-` |
| Tags.NormalizeTagFixed | substack2md.py:164-165 | a tag already in normal form is unchanged |
| Tags.Dedup | substack2md.py:166-167 | the kept list is never longer than the input; its members and order are stated by DedupMembers, DedupShape and FirstSeenOrder |
| Tags.DedupMembers | substack2md.py:166-167 | the kept tags are exactly the non-empty normalised tags |
| Tags.DedupShape | substack2md.py:166-167 | the kept tags are duplicate-free and non-empty |
| Tags.FirstSeenOrder | substack2md.py:166-167 | two tags keep the order of their first occurrences |
| Tags.NormalizeTags | substack2md.py:160-169 | the result is duplicate-free (so `"substack"` occurs once), holds only non-empty normal tags, and gains `"substack"` at the front only when no input tag normalises to it |
| Tags.NormalizeTagsMembers | substack2md.py:160-169 | a string is in the result iff it is `"substack"` or a non-empty normalised input tag |
| Tags.NormalizeTagsIdempotent | substack2md.py:160-169 | normalising a normalised tag list changes nothing |
| Tags.SplitKeywords | substack2md.py:333-334 | every keyword is non-blank, free of commas and already stripped, and the `i`-th keyword is the `i`-th non-blank comma-separated piece, stripped |
| Tags.SplitKeywordsPieces | substack2md.py:334 | the comma-join of any comma-free pieces yields exactly their non-blank pieces, stripped, in order |
| Tags.SplitKeywordsPadded | substack2md.py:334 | keywords with whitespace around them, joined with commas, come back as the bare keywords |
| Tags.SplitKeywordsBlankPiece | substack2md.py:334 | a blank piece between commas contributes no keyword |
| Tags.KeywordEnds | substack2md.py:334 | a stripped non-blank keyword is non-empty and neither starts nor ends with whitespace |
| Tags.SplitKeywordsJoin | substack2md.py:333-334 | splitting the comma-join of stripped, non-blank, comma-free keywords recovers them |
| Urls.Prepare | substack2md.py:174 | after `urlsplit`'s cleaning, no `\t\r\n` remains and no leading control character or space |
| Urls.Split | substack2md.py:174 | `urlsplit` fails exactly when the netloc is refused: `InvalidIPv6` for an unbalanced bracket, otherwise the error of the bracket checks when both brackets are present; on success the netloc is the text after `//` up to the first delimiter |
| Urls.AfterLast | substack2md.py:174 | `rpartition('@')[2]`: the `@`-free tail of the netloc, preceded by `@` when shorter than it |
| Urls.BracketedHost | substack2md.py:174 | a netloc `[a]` with no `@` or brackets in `a` is balanced and refused exactly when `a` fails the host check |
| Urls.BracketedIPv6Accepted | substack2md.py:174 | eight hextets joined by `:` in brackets are an accepted netloc |
| Urls.BracketedNameRejected | substack2md.py:174 | a bracketed name without `.` or `:` that does not start with `v` is refused as not an address |
| Urls.BracketedNameUrlRejected | substack2md.py:174 | so `urlsplit` raises on a URL such as `http://[foo]/` |
| Urls.NetlocAfterScheme | substack2md.py:174 | after a valid scheme and `://`, the netloc runs up to the first `/`, `?` or `#` |
| Urls.FooHostRejected | substack2md.py:174 | `urlsplit("http://[foo]/")` raises, so `cleanup_url` and the link rewrite raise on it too |
| Urls.TextBeforeBracketRejected | substack2md.py:174 | text before `[` (after the last `@`) makes the netloc invalid |
| Urls.Unsplit | substack2md.py:176 | `urlunsplit` loses no component's characters, starts with `scheme:` and ends with `#fragment`; SplitUnsplit is its inverse on well-formed components |
| IpAddress.SplitMax | substack2md.py:174 | `split(sep, maxsplit=m)`: at most `m + 1` parts, no separator inside a part except the last, none at all when the bound was not reached, and the join gives back the input |
| IpAddress.SplitMaxJoin | substack2md.py:174 | splitting a separator-free join of at most `m + 1` parts recovers the parts |
| IpAddress.ScopeSplit | substack2md.py:174 | `_split_scope_id`: without `%` the whole input; otherwise refused exactly when the text after the first `%` is empty or holds another `%`, and else the text before that `%` |
| IpAddress.GapsFrom | substack2md.py:174 | the interior empty parts (each a `::`) are exactly the positions listed |
| IpAddress.IPv4Dotted | substack2md.py:174 | four valid octets joined by `.` form an IPv4 address |
| IpAddress.IPv6Full | substack2md.py:174 | eight hextets joined by `:` form an IPv6 address |
| IpAddress.NameIsNoAddress | substack2md.py:174 | a name with neither `.` nor `:` is neither an IPv4 nor an IPv6 address |
| Urls.SplitUnsplit | substack2md.py:174-176 | for well-formed components, `urlsplit(urlunsplit(p)) == p` |
| Urls.SplitWellFormed | substack2md.py:174 | every component tuple `urlsplit` returns is well formed |
| Urls.Cleanup | substack2md.py:171-176 | the empty URL comes back unchanged; otherwise `cleanup_url` fails exactly when `urlsplit` refuses the netloc (unbalanced or failing the bracket checks) |
| Urls.CleanupKeepsComponents | substack2md.py:171-176 | the cleaned URL splits to the same scheme, netloc and path with empty query and fragment |
| Urls.CleanupIdempotent | substack2md.py:171-176 | cleaning a cleaned URL changes nothing |
| Urls.CleanupFixedPoint | substack2md.py:171-176 | a well-formed URL without query and fragment is its own cleanup |
| Urls.CleanupWithScheme | substack2md.py:171-176 | the cleaned URL is the lowered scheme, `:`, and the rest rebuilt without query and fragment |
| Urls.CleanupLowersScheme | substack2md.py:171-176 | a URL whose scheme has an upper-case letter is changed by `cleanup_url` even with no query |
| Article.PublicationIsFirstLabel | substack2md.py:281 | the publication is the netloc up to its first `.` (or all of it) and contains no `.` |
| Article.PublicationOfLabel | substack2md.py:281 | `host.rest` gives publication `host` |
| Article.Publication | substack2md.py:280-281 | deriving the publication from a URL fails exactly when `urlsplit` does, that is when its netloc is unbalanced or fails the bracket checks |
| Article.PublicationOfUrl | substack2md.py:280-281 | a URL rebuilt from a netloc `host.rest` has publication `host` |
| Article.LastSegmentIsTail | substack2md.py:319 | `path.split("/")[-1]` is the slash-free tail of the path, preceded by `/` when shorter than it |
| Article.LastSegmentEmpty | substack2md.py:319 | the last segment is empty exactly when the path is empty or ends in `/` |
| Article.SlugFor | substack2md.py:319 | the article slug is always a slug |
| Article.ArticleSlug | substack2md.py:319 | deriving the slug from a URL fails exactly when `urlsplit` does (an unbalanced or badly bracketed netloc), and otherwise is a slug |
| Article.TitleFrom | substack2md.py:141 | title-casing keeps the length |
| Article.TitleSpec | substack2md.py:141 | `str.title()` upper-cases a letter not preceded by a letter and lowers one that is; other characters are unchanged |
| Article.TitleKeepsLetters | substack2md.py:141 | title-casing changes only letter case |
| Article.TitleIdempotent | substack2md.py:141 | title-casing twice equals title-casing once |
| Article.SpacesToUnderscores | substack2md.py:141 | `replace(" ", "_")` replaces every space and nothing else |
| Article.GetPublicationName | substack2md.py:127-141 | a mapped slug yields its mapping; any other slug yields a same-length name without spaces |
| Article.PublicationNameDefault | substack2md.py:139-141 | an unmapped slug yields its title-cased form with spaces turned into underscores |
| Transcript.ClockLen | substack2md.py:178 | a matched clock prefix is `h:mm` or `h:mm:ss` with one or two hour digits, and no longer prefix is a clock |
| Transcript.StampLen | substack2md.py:178 | a matched prefix is a timestamp, optionally bracketed, and the longest one there, as the greedy engine takes it |
| Transcript.TimeMatchIsTimestamp | substack2md.py:178 | `TIME_RE.match` on a whole line holds iff the line is a timestamp |
| Transcript.StampPrefix | substack2md.py:189 | a found prefix is leading whitespace, the longest timestamp after it, and the whitespace after that |
| Transcript.StampPrefixComplete | substack2md.py:189 | every line starting with whitespace and a timestamp has such a prefix |
| Transcript.StripStamp | substack2md.py:189 | a line without a stamp prefix is kept; otherwise what follows the prefix StampPrefix finds is kept, so never more than the line |
| Transcript.StripAroundStamp | substack2md.py:185-186 | a line that is only whitespace around a timestamp strips to that timestamp |
| Transcript.SpeakerLen | substack2md.py:179 | a `speaker N` label match is longer than the word `speaker` |
| Transcript.SpeakerLabel | substack2md.py:179 | what `speaker\s*\d+` matches is a label |
| Transcript.SpeakerComplete | substack2md.py:179 | whitespace, a `speaker N`/`host`/`guest` label, whitespace and `:` or `-` make `SPEAKER_RE` match |
| Transcript.SpeakerSound | substack2md.py:179 | every `SPEAKER_RE` match has that shape |
| Transcript.ScrubLines | substack2md.py:181-192 | the scrubbed transcript never has more lines than the input |
| Transcript.ScrubIsMapFilter | substack2md.py:181-192 | scrubbing keeps exactly the lines that are neither timestamps nor speaker labels, in order, each with its stamp prefix removed |
| Transcript.ScrubTranscript | substack2md.py:181-192 | `scrub_transcript_lines(md)` is the join of the kept lines of `md`, each without its stamp prefix |
| Transcript.BlankedLinesAreTimestamps | substack2md.py:185-189 | a non-blank line that the stamp removal blanks is itself a bare timestamp, so the loop dropped it before |
| BlankLines.HeadingNotBlank | substack2md.py:199 | a heading line is never blank |
| BlankLines.HeadingPass | substack2md.py:194-202 | the pass never adds lines and leaves no blank line right after a heading |
| BlankLines.RemoveBlankAfterHeadings | substack2md.py:194-202 | `remove_blank_after_headings(md)` is the join of the lines of `md` without each blank line whose closest non-blank predecessor is a heading |
| BlankLines.HeadingPassMeetsSpec | substack2md.py:194-202 | the pass equals an independent recursive definition, and ends in a heading iff the input's last non-skipped line is one |
| BlankLines.HeadingPassKeepsText | substack2md.py:194-202 | only blank lines are deleted: the non-blank lines survive in order and the output is a subsequence of the input |
| BlankLines.HeadingPassFixed | substack2md.py:194-202 | the pass leaves its input unchanged iff no blank line follows a heading |
| BlankLines.HeadingPassIdempotent | substack2md.py:194-202 | applying the pass twice equals applying it once |
| BlankLines.Piece | substack2md.py:208-213 | each input line is kept or, only when blank, dropped |
| BlankLines.ListPassKeepsText | substack2md.py:204-215 | the list pass deletes only blank lines: the non-blank lines survive in order, as a subsequence |
| BlankLines.ListPassWalkFrom | substack2md.py:204-215 | the indexed loop equals a walk that looks at the previous input line, the line and the rest |
| BlankLines.ListPass | substack2md.py:204-215 | the whole list pass equals that walk from an empty previous line, and deletes only blank lines, keeping the rest in order |
| BlankLines.WalkIdempotent | substack2md.py:204-215 | the walk applied to its own output changes nothing |
| BlankLines.ListPassIdempotent | substack2md.py:204-215 | the line part of `collapse_blank_lines_in_lists` is idempotent |
| BlankLines.CollapseNewlines | substack2md.py:216 | `re.sub(r"\n{3,}", "\n\n", s)` leaves no three newlines in a row and keeps whether the text starts with a newline |
| BlankLines.CollapseAppend | substack2md.py:216 | the substitution works piecewise on the two sides of a cut after a non-newline character |
| BlankLines.CollapseRunBetween | substack2md.py:216 | a run of `k` newlines between two non-newline characters becomes two newlines when `k >= 3` and stays as it is otherwise, and the text on each side is collapsed on its own |
| BlankLines.CollapseKeepsText | substack2md.py:216 | collapsing removes only newlines |
| BlankLines.CollapseFixed | substack2md.py:216 | text is unchanged by the collapse iff it holds no run of three newlines |
| BlankLines.CollapseIdempotent | substack2md.py:216 | collapsing twice equals collapsing once |
| BlankLines.CollapseBlankLinesInLists | substack2md.py:204-217 | the pass's output has no run of three newlines |
| Links.SchemeLen | substack2md.py:537 | a recognised scheme prefix is `http://` or `https://` |
| Links.MatchUrl | substack2md.py:537 | a matched URL part is a link URL followed by `)` |
| Links.MatchLink | substack2md.py:537 | a match consumes a non-empty prefix of the text |
| Links.MatchLinkSound | substack2md.py:537 | every match is `[text](url)` with text free of `]` and an `http(s)://` URL free of `)` |
| Links.MatchLinkComplete | substack2md.py:537 | every such `[text](url)` at the front of the text is matched, whatever follows |
| Links.Prepend | substack2md.py:552 | adding a plain character in front extends the rendered text by that character |
| Links.Scan | substack2md.py:552 | the segments of a body render back to exactly the body, and none is a wiki link |
| Links.ScanComplete | substack2md.py:537-553 | no `LINK_RE` match starts at a position the scan copies as plain text, so the link segments are exactly `re.sub`'s leftmost non-overlapping matches |
| Links.ScanLinks | substack2md.py:537 | every link segment the scan finds is a `LINK_RE` match |
| Links.Rewrite | substack2md.py:539-553 | the rewrite fails iff some link's URL fails `cleanup_url` (RewriteFirstError names which error); otherwise text segments are unchanged, each link becomes `[[stem]]` when its cleaned URL is indexed and `[text](cleaned)` when not, and internal and external count exactly those |
| Links.RewriteNothing | substack2md.py:539-553 | with an empty index and already-clean URLs, the segments come back unchanged with every link counted external |
| Links.RewriteUnchanged | substack2md.py:539-553 | with an empty index, a body whose link URLs are already clean is returned unchanged |
| Links.RewriteInternalLinks | substack2md.py:539-553 | `rewrite_internal_links` fails iff some link's URL fails `cleanup_url`, and otherwise its two counters add up to the number of `LINK_RE` matches |
| Links.RewriteFirstError | substack2md.py:541-552 | `re.sub` calls `repl` on the matches from left to right, so the error raised is that of the first link whose URL `cleanup_url` refuses |
| Links.RewriteInternalFirstError | substack2md.py:539-553 | `rewrite_internal_links` raises the error of the first bad link in the body |
| Cdp.Get | substack2md.py:389-392 | `.get(key, default)` fails on a non-object and otherwise yields the field or the default |
| Cdp.Wire | substack2md.py:382-384 | the wire message holds `id`, `method` and `params`, plus `sessionId` exactly when the session is truthy |
| Cdp.ReplyAnswers | substack2md.py:389 | a reply carrying the request's id answers it |
| Cdp.AwaitReply | substack2md.py:386-392 | frames before the answer are well-formed objects with another id; the outcome is the first matching frame's, or a failure when the inbox runs out or a frame is broken or not an object |
| Cdp.Send | substack2md.py:378-392 | `msg_id` grows by exactly 1, the request is logged with the new id, and the unread inbox is a suffix of the old one |
| Cdp.SendReply | substack2md.py:389-392 | with the answer at position `k`, the inbox resumes after it; the call fails with the reply's `error` or returns its `result`, by default `{}` |
| Cdp.SendNoReply | substack2md.py:386-392 | without an answering frame the call fails |
| Cdp.ExtendsTrans | substack2md.py:381 | appending requests in two steps is appending them in one |
| Cdp.SendExtends | substack2md.py:381-384 | each call appends one request numbered after the previous one |
| Cdp.ExtendsNumbers | substack2md.py:371-381 | a client whose requests are numbered 1, 2, … since `msg_id = 0` stays so |
| Cdp.RecvEventUntil | substack2md.py:394-405 | `recv_event_until` never gives back more items than it had, fails only by timing out, and on success returns a dict frame whose `method` equals the event and whose `sessionId` equals the session asked for under Python's `==` (so `True` matches `1`), any session matching when none or `None` is asked for |
| Cdp.FirstEvent | substack2md.py:397-402 | the first event in the window that passes the method and session test (Python's `==`, a missing `sessionId` reading as `None`) is found, and nothing before it passes |
| Cdp.RecvEventSpec | substack2md.py:394-405 | `recv_event_until` returns the first frame in the window whose `method` and (when a session is given) `sessionId` equal the ones asked for under Python's `==`, skipping broken and non-dict frames, and otherwise times out |
| Cdp.RecvEventTimeout | substack2md.py:394-405 | it times out iff no frame in the window passes the method and session test under Python's `==` |
| Cdp.PyEqReflexive | substack2md.py:402 | every JSON value is Python-`==` to itself |
| Cdp.PyEqSymmetric | substack2md.py:402 | Python's `==` on JSON values is symmetric, so comparing the frame's `sessionId` with the session or the other way round is the same test |
| Cdp.EqualsIntIsPyEq | substack2md.py:389 | the reply-id comparison `obj.get("id") == self.msg_id` is Python's `==` against an integer |
| Cdp.SessionTrueMatchesOne | substack2md.py:402 | a session id `true` matches an event whose `sessionId` is `1` |
| Fetch.TruthyField | substack2md.py:408-415 | `res.get(key)` must be truthy: the field's value on success, the given error otherwise |
| Fetch.EvalValue | substack2md.py:437-448 | `res.get("result", {}).get("value", d)` fails exactly on non-objects and otherwise yields the value or the default |
| Fetch.Create | substack2md.py:408-411 | one `Target.createTarget` request for `about:blank`; a success carries a truthy target id |
| Fetch.Attach | substack2md.py:412-415 | one `Target.attachToTarget` request with `flatten`; a success carries a truthy session id |
| Fetch.Navigate | substack2md.py:417-421 | one `Page.navigate` request in the session; a load-event timeout is ignored |
| Fetch.Load | substack2md.py:416-421 | `Page.enable` then `Page.navigate` with consecutive ids; success only after both |
| Fetch.OpenPage | substack2md.py:408-421 | the page opens with create, then attach, then enable and navigate, four requests on success, and no close among them |
| Fetch.AttachAndLoad | substack2md.py:412-421 | after create: attach, enable and navigate, with a truthy session on success |
| Fetch.LoadExtends | substack2md.py:416-417 | enable and navigate only append non-close requests |
| Fetch.Poll | substack2md.py:425-441 | the poll sends only the probe evaluation, at most `polls` times, and yields a truthy value or `""` |
| Fetch.ReplyValue | substack2md.py:437 | what an evaluation makes of the browser's reply: its `error` raised, or the value of its `result` (by default `{}`) with the given default |
| Fetch.EvaluateReply | substack2md.py:428-437 | an evaluation answered by the next frame consumes that frame and yields that reply's value |
| Fetch.PollFirstStop | substack2md.py:425-441 | with a browser answering each probe in turn, the poll returns the value of the first reply that raised or is truthy, after exactly that many probes, and `""` after all `polls` probes when none is |
| Fetch.Grab | substack2md.py:425-448 | the poll's failure or truthy value is the result; otherwise one fallback evaluation follows; all requests are `Runtime.evaluate` |
| Fetch.GrabFirstStop | substack2md.py:425-448 | with a browser answering each evaluation in turn, the HTML is the first stopping probe reply's value, or else the fallback reply's `value` with default `""` |
| Fetch.Body | substack2md.py:408-448 | HTML is only obtained once a target exists, and no close is sent before the end |
| Fetch.Close | substack2md.py:449-452 | one `Target.closeTarget` request, its failure ignored |
| Fetch.FetchHtml | substack2md.py:407-453 | the target is closed last when the HTML was obtained, and never closed on failure |
| Fetch.FetchHtmlClosing | substack2md.py:407-453 | the same HTML and target as `fetch_html`, but a created target is always closed last |
| Fetch.FetchNumbers | substack2md.py:371-381 | request ids stay consecutive through a fetch |
| Fetch.NoSessionLeaves | substack2md.py:412-415 | a browser that creates a tab but gives no session makes `fetch_html` fail and leave the tab open |
| Fetch.NoSessionCloses | substack2md.py:412-415 | on the same browser the closing version fails the same way but closes the tab |
| Archive.StrLessIrreflexive | substack2md.py:514 | code-point string order is irreflexive |
| Archive.StrLessTransitive | substack2md.py:514 | code-point string order is transitive |
| Archive.StrLessTotal | substack2md.py:514 | code-point string order is total on distinct strings |
| Archive.SortUrls | substack2md.py:514 | `sorted(urls)` is strictly ascending and holds exactly the set's members |
| Archive.SortedUnique | substack2md.py:514 | two strictly sorted sequences with the same members are equal, so the sorted order is unique |
| Archive.CutQuery | substack2md.py:499 | `a.split('?')[0]` is the longest `?`-free prefix |
| Archive.ListLinks | substack2md.py:496-499 | a URL is collected iff it is the cut form of a non-empty string item |
| Archive.Chars | substack2md.py:496 | walking a string yields its characters as one-character strings |
| Archive.RoundLinks | substack2md.py:495-499 | walking `value or []` fails exactly on a truthy number or boolean, gives nothing for a falsy value, and gives the list's links for a list |
| Archive.Collected | substack2md.py:495-499 | a round fails exactly when reading the value or walking it does |
| Archive.Advance | substack2md.py:499-506 | the set grows by the round's links; an unchanged size bumps `stable` and breaks at 3, a new size resets it |
| Archive.Loop | substack2md.py:485-507 | the loop runs at most 60 rounds, the set only grows, and it hits the round limit only after exactly 60 |
| Archive.LoopStops | substack2md.py:491-494 | an early stop without convergence is at the first round whose evaluation raised |
| Archive.LoopUnion | substack2md.py:485-507 | the final set is the start set plus the links of exactly the rounds read |
| Archive.ConvergedLate | substack2md.py:500-506 | convergence needs enough stable rounds, and the last three rounds added nothing |
| Archive.ConvergedFromStart | substack2md.py:481-507 | from the start state, convergence takes at least 4 rounds, and the result is the union of all rounds but the last three |
| Archive.Rounds | substack2md.py:485-494 | the loop sends only `Runtime.evaluate` requests, at most 60, one per round |
| Archive.TraceConsumed | substack2md.py:485-507 | the loop consumes exactly the rounds the client produced |
| Archive.ArchiveBody | substack2md.py:465-507 | the harvest needs a target, and no close is sent before the end |
| Archive.Archive | substack2md.py:458-514 | the tab is closed last after a harvest (converged, limited or stopped by a raise), and never when opening the page or walking a value failed |
| Archive.ArchiveClosing | substack2md.py:458-514 | the same harvest and target, but a created tab is always closed last |
| Archive.FetchArchiveUrls | substack2md.py:458-514 | the answer is the harvest's set, sorted, or a failure exactly when the harvest failed |
| Archive.NoSessionLeavesArchive | substack2md.py:470-473 | a browser that creates a tab but gives no session makes the archive export fail and leave the tab open |

## Left out

- Networking: `connect`, `requests.get` discovery and `create_connection`. These are
  I/O. The socket is the `Conn` inbox and log.
- Clocks and sleeps: `time.time` deadlines and `time.sleep`. Deadlines are
  modelled as counts (`budget`, `polls`); sleeps have no observable effect here.
- JSON text: `json.dumps` and `json.loads`. Values are the `Json` datatype, and a
  frame that does not parse is `Broken`.
- The JavaScript expressions and the browser's DOM. They are opaque parameters,
  and their results arrive through the inbox.
- HTML parsing and conversion (`img_to_link`, `html_to_markdown_clean`,
  `parse_ld_json`, most of `extract_article_fields`). These are foreign libraries.
- Dates (`parse_iso`, `utcnow`, `today`). They depend on the clock and a library.
- Config, YAML and files (`load_config`, `with_frontmatter`,
  `build_url_to_note_map`, `process_url`, `process_from_md`, `main`). These are
  I/O orchestration. The link index is a given map from cleaned URL to note stem.
- Text.Lower: only ASCII letters change case. Python's full Unicode `lower`
  is not modelled.
- Article.TitleSpec: only ASCII letters count as letters. Python's Unicode
  `title` is not modelled.
- Slug.Slugify: `\w` is ASCII letters, digits and `_`. Unicode word
  characters are treated as punctuation and removed.
- Slug.TrimHyphens: the model removes the hyphen runs at both ends; in Python `-+$` also
  matches just before a final newline. The text `slugify` passes has no newline (every
  whitespace run became `-` before), so this never shows there.
- Transcript.SpeakerSound, Transcript.ClockLen, Transcript.TimeMatchIsTimestamp and
  Transcript.StampPrefix: `\d` is ASCII digits, in `SPEAKER_RE` and in `TIME_RE`.
  Python's `\d` also matches other Unicode decimal digits, so a line such as
  `"٣:٤٥"` (Arabic-Indic digits) is dropped by the program but kept by the model.
  Case-insensitive matching of the labels includes the two Unicode characters that
  fold to `s` and `k`.
- Numbers in JSON: the `Json` datatype has integers only, no floating-point numbers.
  In Python a reply with `"id": 1.0` answers request 1; a float `value` is truthy
  HTML in `fetch_html`; and a float in the archive walk raises `TypeError`. None of
  this is modelled.
- Urls.Split: `_checknetloc`, the NFKC normalisation check that `urlsplit` applies to
  a netloc with non-ASCII characters, is not modelled, since Unicode normalisation is
  out of reach here; such a netloc is accepted whenever the other checks pass.
- Urls.Unsplit: the netloc rule is CPython 3.12.13's. Earlier 3.12 patch releases
  (3.12.3, for one) write `//` when `netloc or (scheme and scheme in uses_netloc and
  url[:2] != '//')`, so there `cleanup_url("http:foo")` is `"http:///foo"`, while here
  it is `"http:foo"`.
- IpAddress.IsIPv6Text: an IPv4 suffix stands for two hextets written `"0"`. The hex
  digits `ipaddress` would produce are not computed; only whether the address is
  valid matters to `urlsplit`.
- The whole Markdown pipeline (scrub, then lists, then headings) is not
  idempotent. For example, `"- a\n\n\n- b"` loses one blank line per run. Only
  per-pass properties are stated.
- Urls.SplitUnsplit: the round trip is stated for well-formed components, not
  for every component tuple. `urlunsplit` is not injective on arbitrary ones.

## Findings

| source | as written | input that shows it | evidently intended | confidence | as-written member | corrected member |
|---|---|---|---|---|---|---|
| substack2md.py:407-453 | `fetch_html` sends `Target.closeTarget` only on the path that reaches the end; a raise after `createTarget` (attach gives no `sessionId`, an evaluation error) leaves the tab open | a browser that answers `createTarget` with `{"targetId": "T"}` and `attachToTarget` with `{}` | close a created tab on every exit path (`try/finally`) | not executed | Fetch.FetchHtml, Fetch.NoSessionLeaves | Fetch.FetchHtmlClosing, Fetch.NoSessionCloses |
| substack2md.py:458-514 | `fetch_archive_urls_via_cdp` closes the tab only after the harvest loop; a failed attach or a non-iterable evaluation value raises before it | the same browser as above | close a created tab on every exit path | not executed | Archive.Archive, Archive.NoSessionLeavesArchive | Archive.ArchiveClosing |
