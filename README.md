# Twitter dialog crawler: a verified model of its core

The repository collects two-party Japanese dialogs from Twitter and cleans them.
It holds two layers, and each layer has two copies: an early script at the top level
and a refactored one under `crawler/`.

**Crawling.** Fetched statuses go into an in-memory store of three maps: status id
to text, status id to author, and status id to parent. Only statuses that pass the
authenticity prefilter (`filter_status`) are stored. The leaves of the reply graph
are the reply-map keys that are nobody's parent. Each leaf is walked up to its root.
If some status on the way was never stored, the leaf yields nothing. The walked
texts, reversed so that the root comes first, form a dialog when `filter_dialog`
accepts the walked authors: at least two turns, exactly two speakers, strict
alternation.
- `crawler/crawl.py` keeps the store in a `Crawler` object and collects the dialogs
  in a set.
- `crawl.py` keeps it in the caller's dictionaries and collects the dialogs in a
  list, duplicates included.

**Cleaning.** Each utterance is cleaned and then filtered. A dialog is kept only when
every utterance passes.
- Cleaning removes screen names (`@` and 1 to 15 of `[A-Za-z0-9_]`), collapses white
  space Python-style and decodes HTML entities.
- Filtering checks a minimum length, the absence of a flooding run (`(.+)\1{n}`) and
  the allowed scripts.
- `crawler/clean.py` (class `Cleaner`) unescapes after the collapse and can strip
  non-Japanese characters instead of rejecting them.
- `clean.py` unescapes first, requires at least one Japanese character and fixes
  both limits at 4. It deduplicates tab-joined lines in a set and groups them by
  their number of tab-separated fields.

Modules:
- `ReplyChains` (`reply_chains.dfy`): the shared crawling logic. It holds the status
  record, both filters, the store and its insertion, the leaves, the bounded walk
  and its imperative form.
- `CrawlerCrawl` (class `Crawler`) and `Crawl` model the two crawler copies.
- `CrawlerClean` (class `Cleaner`) and `Clean` model the two cleaner copies.
- `Mentions`, `Whitespace`, `Script` and `Repetition` model the three regular
  expressions and `' '.join(s.split())`. Each is a scanner, characterised by
  lemmas: `Mentions` by how it treats the first character and what follows it,
  `Whitespace` by the layout of words and gaps, `Script` by a filter, and
  `Repetition` by a predicate saying where a run occurs.
- `Strings` and `SeqUtil` (`seq_util.dfy`) hold sequence helpers, and `Options`
  (`options.dfy`) the optional value.

Modelling decisions:
- The walk loops forever in Python when the parent links form a cycle. The model
  bounds it by the number of reply entries plus one. `RootChainShort` and
  `ChainExact` show that the bound never cuts a walk that reaches a root, so it only
  turns the endless loop on a cycle into "no dialog".
- Re-insertion of an id is last-write-wins only for texts and authors. A later
  write of the same id without a parent keeps the earlier parent entry
  (`StaleParentSurvives`).
- The two cleaner copies differ in where they unescape. In `crawler/clean.py`, an
  entity such as `&nbsp;` decodes after the collapse, so its output need not be
  collapsed (`UnescapeAfterCollapse`). `clean.py` unescapes first, and its output
  always is.

## Model

| member | source | states |
|---|---|---|
| `ReplyChains.FilterStatus` | crawler/crawl.py:11-32 | accepts exactly when the source is one of the three manual clients, there are no hashtags and no URLs, and there is no media key (crawl.py:11-24 is the same) |
| `ReplyChains.FilterDialog` | crawler/crawl.py:35-48 | `filter_dialog`'s three early returns: fewer than two texts, not exactly two distinct authors, or an author twice in a row. `FilterDialogMeansAlternation` characterises it |
| `ReplyChains.FilterDialogMeansAlternation` | crawler/crawl.py:35-48 | `filter_dialog` accepts exactly the dialogs with at least two texts whose authors are two different users strictly taking turns (crawl.py:27-37 is the same) |
| `ReplyChains.AlternatingUsers` | crawler/crawl.py:41-45 | an alternating author list has exactly two distinct authors and no author twice in a row |
| `ReplyChains.TwoUsersNoRepeatAlternate` | crawler/crawl.py:41-45 | two distinct authors and no repeat in a row force strict alternation |
| `ReplyChains.Insert` | crawler/crawl.py:109-118 | one pass of the timeline loop's body (crawl.py:62-68 is the same). `InsertStores`, `InsertRejected` and `InsertKeepsInvariant` characterise it |
| `ReplyChains.InsertRejected` | crawler/crawl.py:109 | a status the prefilter rejects leaves all three maps unchanged |
| `ReplyChains.InsertKeepsInvariant` | crawler/crawl.py:108-118 | inserting a status keeps the store invariant: the text and author maps have the same keys, reply keys are text keys, and all texts are collapsed |
| `ReplyChains.InsertAllStep` | crawler/crawl.py:108-118 | the timeline loop's step: one more status is one more insertion, and adds its parent's author when it is an accepted reply |
| `ReplyChains.InsertAllKeepsInvariant` | crawler/crawl.py:108-118 | any sequence of insertions keeps the store invariant |
| `ReplyChains.InsertStores` | crawler/crawl.py:109-118 | an accepted status stores its collapsed text and its author, adding its id to both key sets. A reply also stores its parent and adds its id to the reply keys, and a non-reply leaves the reply map alone. Every other id keeps its text, author and parent |
| `ReplyChains.LastWriteWins` | crawler/crawl.py:110-112 | re-inserting an id overwrites its text and author |
| `ReplyChains.StaleParentSurvives` | crawler/crawl.py:114-118 | a parent entry written by an earlier reply survives a later non-reply write of the same id |
| `ReplyChains.Leaves` | crawler/crawl.py:129-130 | a leaf is exactly a reply-map key that is no entry's parent (crawl.py:79 is the same) |
| `ReplyChains.WalkUp` | crawler/crawl.py:136-152 | a successful walk is a complete path from the given id to a root, every id on it stored, no longer than the bound |
| `ReplyChains.WalkUpFindsChain` | crawler/crawl.py:136-152 | the walk finds every complete path that fits in the bound |
| `ReplyChains.ChainShift` | crawler/crawl.py:145-152 | on a complete path, two positions holding the same id are followed by the same ids, because each id has one parent entry |
| `ReplyChains.RootChainDistinct` | crawler/crawl.py:145-152 | no id repeats on a complete path, since the parent links are a function and the path ends at a root |
| `ReplyChains.RootChainShort` | crawler/crawl.py:136-152 | a complete path is at most one longer than the number of reply entries |
| `ReplyChains.ChainExact` | crawler/crawl.py:136-152 | the bounded walk succeeds exactly when a complete path from the leaf exists, and then returns that path |
| `ReplyChains.MissingAncestorDiscards` | crawler/crawl.py:137-139 | an unstored ancestor anywhere above the leaf makes the whole walk fail, rather than truncating it |
| `ReplyChains.ClimbToRoot` | crawler/crawl.py:136-152 | the `while True` walk reaches a root exactly when the bounded walk succeeds, and then returns that path's texts and authors, leaf first |
| `ReplyChains.LeafDialog` | crawler/crawl.py:133-152 | one leaf's loop body yields exactly the leaf's candidate dialog |
| `ReplyChains.Candidate` | crawler/crawl.py:133-152 | what one leaf's walk contributes: the reversed texts of its complete path when `filter_dialog` accepts the authors, nothing otherwise. `LeafDialog`, `CandidateShape`, `CandidateCollapsed` and `TwoTurnCandidate` characterise it |
| `ReplyChains.CandidateShape` | crawler/crawl.py:144-149 | an emitted dialog reverses a complete path's texts: root text first, leaf text last, at least two turns, the authors alternating |
| `ReplyChains.CandidateCollapsed` | crawler/crawl.py:110-111 | every utterance of an emitted dialog is collapsed |
| `ReplyChains.TwoTurnCandidate` | crawler/crawl.py:133-152 | a stored reply to a stored root by a different user yields the two-turn dialog, root text first |
| `ReplyChains.BrokenChainExample` | crawler/crawl.py:137-139 | A <- B <- C with B never stored: C is the only leaf and its walk yields nothing |
| `CrawlerCrawl.DialogSetOfSize` | crawler/crawl.py:126-154 | the dialog set has at most one dialog per leaf |
| `CrawlerCrawl.DialogSetMember` | crawler/crawl.py:144-149 | every dialog in the set comes from a leaf's complete path: reversed, root first, leaf last, alternating authors, collapsed utterances |
| `CrawlerCrawl.MissingAncestorAddsNothing` | crawler/crawl.py:137-139 | a leaf with an unstored ancestor adds nothing to the set |
| `CrawlerCrawl.BrokenChainNoDialog` | crawler/crawl.py:129-154 | a store whose only chain is broken yields the empty dialog set |
| `CrawlerCrawl.Crawler.constructor` | crawler/crawl.py:69-74 | the three maps and the dialog set start empty, and the store invariant holds |
| `CrawlerCrawl.Crawler.Reset` | crawler/crawl.py:157-163 | `crawl` empties the three maps and the dialog set |
| `CrawlerCrawl.Crawler.GetUserTimeline` | crawler/crawl.py:108-118 | the maps become the old store with the statuses inserted in order, the in-reply-to user ids are those of the accepted replies, and the invariant is kept |
| `CrawlerCrawl.Crawler.MakeDialogs` | crawler/crawl.py:125-154 | returns exactly the set of all leaves' dialogs, and at most as many dialogs as leaves |
| `CrawlerCrawl.Crawler.Crawl` | crawler/crawl.py:156-172 | after the reset and both rounds, the store is the insertions from empty, the invariant holds, and the dialogs are the dialog set of that store |
| `Crawl.GetUserTimeline` | crawl.py:55-73 | the returned maps are the caller's maps with the statuses inserted in order, and the in-reply-to user ids are those of the accepted replies |
| `Crawl.EmitAllLength` | crawl.py:76-99 | each leaf appends at most one dialog to the list |
| `Crawl.EmitAllElements` | crawl.py:76-99 | the list holds exactly the dialogs of the set built by `crawler/crawl.py` from the same store |
| `Crawl.BuildDialogs` | crawl.py:76-99 | visits every leaf once, in some order. The list is what that order appends, no longer than the number of leaves, and holds exactly the set's dialogs |
| `Crawl.CrawlOnce` | crawl.py:135-144 | one round from empty maps: the store invariant holds, the leaves are visited once each in some order, the list is exactly what that order appends (one entry per accepted leaf), it is no longer than the number of leaves, and it holds exactly the set's dialogs |
| `Crawl.DuplicatesKept` | crawl.py:77-93 | two replies with equal text to one root give two equal list entries, while the set keeps one |
| `Whitespace.Split` | crawler/crawl.py:111 | `str.split()` with no argument yields only non-empty items free of white space |
| `Whitespace.SplitIsLayout` | crawler/crawl.py:111 | a word list is `split()`'s result exactly when white-space gaps woven around and between its words rebuild the text, with the inner gaps non-empty: the items are the maximal white-space-free runs, in order |
| `Whitespace.SplitLayout` | crawler/crawl.py:111 | `split()`'s items, with the white space it skipped put back, rebuild the text |
| `Whitespace.LayoutIsSplit` | crawler/crawl.py:111 | any decomposition of the text into words and white-space gaps (inner gaps non-empty) has exactly `split()`'s items as its words |
| `Whitespace.CollapseWord` | crawler/clean.py:55 | a single word collapses to itself |
| `Whitespace.Collapse` | crawler/crawl.py:111 | `' '.join(s.split())` has no white space at either end, none but U+0020, and no double space |
| `Whitespace.CollapseKeepsWords` | crawler/clean.py:55 | collapsing keeps the sequence of white-space-separated words |
| `Whitespace.CollapseIdempotent` | crawler/clean.py:55 | collapsing twice is collapsing once |
| `Whitespace.SplitJoinWords` | crawler/clean.py:55 | splitting a space-join of words gives the words back |
| `Mentions.RemoveMentions` | crawler/clean.py:54 | screen-name removal returns a subsequence of its input |
| `Mentions.PlainTextKept` | crawler/clean.py:54 | only `@` and handle characters are deleted: every other character survives, in order |
| `Mentions.NoAtUnchanged` | crawler/clean.py:54 | text without `@` is unchanged |
| `Mentions.HandleLength` | crawler/clean.py:54 | the greedy `{1,15}` takes the longest run of handle characters up to the budget |
| `Mentions.MentionRemoved` | crawler/clean.py:54 | a screen name of 1 to 15 handle characters, followed by text that is empty or starts with a non-handle character and has no `@`, leaves exactly that text |
| `Mentions.MentionThen` | crawler/clean.py:54 | at an `@` followed by handle characters, the match takes them up to the first non-handle character or the 15th, whichever comes first, deletes them with the `@`, and scanning resumes right after |
| `Mentions.KeptChar` | crawler/clean.py:54 | any character other than an `@` followed by a handle character is kept, and scanning resumes at the next one |
| `Mentions.ScanCovers` | crawler/clean.py:54 | every non-empty text falls under `KeptChar` or `MentionThen`, so the two fix the result on every text |
| `Mentions.LongHandleCapped` | crawler/clean.py:54 | `@` with 16 handle characters loses only the first 15, leaving the 16th as text |
| `Mentions.MentionExample` | clean.py:22 | `@abc_123 元気？` loses its screen name and keeps the space after it |
| `Script.HasJa` | clean.py:12 | true exactly when some character is in U+3000-U+30FF or U+4E00-U+9FFF |
| `Script.HasDisallowed` | crawler/clean.py:25-31 | true exactly when some character lies outside the allowed set, which includes ASCII exactly when asked to |
| `Script.RemoveDisallowed` | crawler/clean.py:61 | the strip returns a subsequence of its input holding only allowed characters, and every allowed character value of the input appears in it |
| `Script.RemoveDisallowedIsFilter` | crawler/clean.py:61 | the strip keeps exactly the allowed characters, each occurrence in order: it is the filter of the input by the allowed set |
| `Script.RemoveDisallowedIdempotent` | crawler/clean.py:61 | stripping twice is stripping once |
| `Script.StripSuffix` | crawler/clean.py:61 | allowed text followed by disallowed text strips to the allowed text |
| `Script.StripExample` | crawler/clean.py:61 | `こんにちはhello` becomes `こんにちは` without ASCII |
| `Repetition.HasRepeat` | crawler/clean.py:71 | the scanner is true exactly when some non-empty, newline-free unit is followed by `n` more copies of itself |
| `Repetition.FiveInARow` | clean.py:16 | five equal characters match `(.+)\1{4}` |
| `Repetition.ThreeInARow` | clean.py:16 | three equal characters do not match `(.+)\1{4}` |
| `CrawlerClean.CleanText` | crawler/clean.py:52-63 | with `remove_non_ja`, every character of the result is in the allowed set |
| `CrawlerClean.CleanTextStripOnlyDeletes` | crawler/clean.py:60-61 | with `remove_non_ja`, the result is the unescaped text filtered by the allowed set: every allowed occurrence is kept, in order, so `min_length` counts them all |
| `CrawlerClean.UnescapeAfterCollapse` | crawler/clean.py:55-58 | an entity decoding to U+00A0 after the collapse leaves the output not collapsed |
| `CrawlerClean.FilterText` | crawler/clean.py:65-77 | accepts exactly when the text is at least `min_length` long, has no flooding run, and is fully allowed unless `remove_non_ja` |
| `CrawlerClean.CleanDialog` | crawler/clean.py:82-93 | the `for ... else` passes exactly when every cleaned utterance passes, and then yields the cleaned tuple in order |
| `CrawlerClean.SurvivorMember` | crawler/clean.py:79-93 | a kept dialog is non-empty and matches a raw dialog utterance by utterance. Every utterance passes the filter and holds only allowed characters |
| `CrawlerClean.SurvivorsSize` | crawler/clean.py:79-93 | at most one kept dialog per raw dialog |
| `CrawlerClean.Cleaner.constructor` | crawler/clean.py:12-34 | the policy is stored and both dialog sets start empty |
| `CrawlerClean.Cleaner.Load` | crawler/clean.py:40-41 | adds every row read to the raw set |
| `CrawlerClean.Cleaner.AddCleaned` | crawler/clean.py:81-93 | for one raw dialog, adds its cleaned form once exactly when it survives (non-empty, all pass) |
| `CrawlerClean.Cleaner.Clean` | crawler/clean.py:79-93 | adds exactly the cleaned forms of the surviving raw dialogs, whatever the order |
| `Clean.CleanText` | clean.py:19-25 | the result is collapsed, has no tab and no line feed, and keeps the words of the unescaped text minus its screen names |
| `Clean.CleanRow` | clean.py:28-29 | same length, and position `i` holds the cleaned text of position `i` |
| `Clean.FilterText` | clean.py:32-45 | accepts exactly the texts with some Japanese character, nothing outside ASCII and the Japanese ranges, length at least 4, and no unit five times in a row |
| `Clean.FilterRow` | clean.py:48-49 | true exactly when every utterance passes, including for the empty row |
| `Clean.AcceptedAllSize` | clean.py:59-65 | the rows add at most one line each |
| `Clean.ReadDialogs` | clean.py:52-67 | counts every row, adds exactly the tab-joined accepted rows, and adds no more new lines than rows read |
| `Clean.FieldCount` | clean.py:75 | `len(dialog.split('\t'))` is the number of tabs in the line plus one |
| `Clean.FieldCountOfRow` | clean.py:75 | the line of a non-empty cleaned row splits back into its utterances, so its field count is its number of utterances |
| `Clean.EmptyRowCountsAsOne` | clean.py:62-63 | the empty row passes, adds the empty line, and that line counts one field |
| `Clean.SameLineSameRow` | clean.py:63 | two non-empty rows give the same line exactly when their cleaned utterances agree |
| `Clean.WriteDialogs` | clean.py:70-87 | every line lands in the group of its field count, groups hold only such lines and are never empty, and `n_written` is the number of lines |
| `Clean.GroupByTurns` | clean.py:74-79 | the grouping loop yields that partition |
| `Clean.CountWritten` | clean.py:81-85 | the group sizes add up to the number of lines |
| `Strings.SplitJoinRoundTrip` | clean.py:75 | splitting a join of pieces free of the separator gives the pieces back |
| `Strings.SplitOnCount` | clean.py:75 | `split(sep)` yields one more field than there are separators |

## Left out

- Network access through Tweepy is not modelled: authentication, search, timeline
  fetches, rate-limit waiting and `TweepError` handling. The statuses a fetch
  returns are an input.
- The per-user loop around the timeline fetch is not modelled. The model takes the
  fetched timelines' statuses as one sequence, in fetch order.
- `CrawlerCrawl.Crawler.Crawl`: the follow-up statuses are an input. The model does
  not check that they come from the in-reply-to users outside the first round
  (`in_reply_to_user_ids - user_ids`), because choosing users is part of the
  network layer.
- `_get_user_ids` and `get_user_ids` are left out. They only feed the network layer.
- The endless crawl loops, timestamped file names, `save`, `write_dialogs`' file
  output, `load`'s file and CSV reading, `print` and `tqdm` are file I/O and
  scheduling. They are left out. `Cleaner.Load` and `ReadDialogs` take the rows read
  as a sequence.
- The percentage statistics are left out. They use float division and divide by
  zero on empty input.
- `html.unescape` is a function-typed parameter. The HTML5 entity table is a foreign
  library.
- `CrawlerClean.FilterText`: `max_repeat` is a natural number. A negative value
  turns the pattern into literal text, and that is not modelled.
- `ReplyChains.Insert`: a reply carries its parent status id and parent user id
  together. A reply whose `in_reply_to_user_id` is missing is not modelled.
- `ReplyChains.WalkUp`: on a reply cycle the Python walk never ends. The model's
  bounded walk yields no dialog for that leaf.
- Set and dictionary iteration order is not modelled. Each loop over a set takes an
  arbitrary element. `Crawl.BuildDialogs` exposes the order it used as a ghost
  output.
- `crawl.py` appends `reversed(...)` iterators, which its writer consumes once. The
  model appends reversed sequences.
- `Crawl.GetUserTimeline` and `Clean.ReadDialogs` return the updated dictionaries
  and set. Python mutates the caller's objects in place.
- `mrph.py` is not part of this model. It wraps the Juman++ analyser and the
  `zenhan` width conversion, both foreign libraries.
- White space follows Python's `str.isspace`, written out as a fixed table of code
  points (`Whitespace.IsSpace`).
