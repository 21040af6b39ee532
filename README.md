# Feed ingestion and batch dispatch, in Dafny

This project models the core of `fetch_and_push.py`, a scheduled job that
collects research-news items from RSS feeds and mails them out in batches.
The job has two halves, both working on one table of items:

* **Ingestion** (`fetch_and_push`): every validated feed is parsed and
  every entry is screened. An entry is kept when its publish time is known
  and younger than `NEW_ITEM_THRESHOLD_HOURS`; a time without a zone counts
  as UTC. Its title must also contain a keyword as a case-insensitive whole
  word. A kept entry whose link is not stored yet is inserted under
  `md5(link)` with its cleaned abstract and `sent = 0`. A primary-key
  conflict is swallowed, and the job counts entries seen, processed and
  inserted.
* **Dispatch** (`ai_integrated_batch_send`): the unsent rows are read,
  turned into articles (source label from the link, summary from the
  abstract or else the title) and cut into batches of ten. Each batch is
  sent either as the rewritten message from the language-model service, or
  as the plain-text message of `send_traditional_batch_limited`. The links
  of a batch are marked sent, in one transaction, only when its delivery
  succeeded. The status updates `update_article_sent_by_link` and
  `mark_all_unsent_as_sent` retry while the database is locked.

Modules, one file each:

* `strings.dfy`: `Strings`, the Python string operations used:
  * `in`, `lower`, `strip`;
  * the two `re.sub` clean-ups;
  * `''.join` and `str(int)`;
  * the ordered first-match scan.
* `sources.dfy`: `Sources`, `get_feed_source`.
* `relevance.dfy`: `Relevance`, the time test and the `\b(k1|…)\b` keyword
  search.
* `store.dfy`: `Store`, the table, the SQL statements as methods of the
  class `ItemStore`, and the retry loops.
* `ingest.dfy`: `Ingest`, the screening of entries, the insert step and
  the loops over feeds and entries.
* `batching.dfy`: `Batching`, the slice arithmetic.
* `messages.dfy`: `Messages`, the topic tally and the plain-text rendering.
* `reply.dfy`: `Reply`, how a rewritten reply is read as subject and body.
* `dispatch.dfy`: `Dispatch`, the batch loop.

The loops of the source are methods with loop invariants, each proved
against a function that specifies it:
* `FetchAndStore` and `ProcessFeed` against `IngestFeeds`;
* `ScreenEntries` against `StoreEntries`;
* `RenderBody` against `FallbackBody`;
* `SendAll` against `ComposedAll` and `ConfirmedLinks`.

The properties are lemmas about those functions.

Outside effects are parameters:
* the parsed feeds;
* the clock, as one reading for the whole run (see "## Left out");
* the date parser, the MD5 digest, `isoformat` and the `\w` class;
* the engine's answer to each statement attempt;
* the service's reply, the delivery result and the failing statement (if
  any) for each batch.

Where the code and a plain reading of the job differ, the model follows
the code:
* With an empty keyword list the pattern is `\b()\b`, which matches every
  title that has a word character.
* A date-parser error other than `ValueError`/`TypeError` is not caught by
  the entry loop. It ends the processing of the rest of that feed (the
  handler at `fetch_and_push.py:878-880`); the entry that raised counts as
  processed.
* A rewritten reply with an empty subject or body falls back to the
  plain-text message (`email_title and email_body`).
* An exception from the delivery of a rewritten message is not caught in
  the batch loop (`fetch_and_push.py:527`); it reaches the handler around
  the whole dispatch (`fetch_and_push.py:548-549`), so the later batches
  are not attempted. The plain-text path catches its own exceptions
  (`fetch_and_push.py:612-614`) and counts them as a failed delivery.

## Model

| member | source | states |
|---|---|---|
| Strings.FirstIndex | fetch_and_push.py:573-585 | the index returned is the first entry satisfying the test (the first topic category that applies, and likewise the first entry whose date parse raises); none when no entry does |
| Strings.Lower | fetch_and_push.py:217 | `lower()` keeps the length and lower-cases each character |
| Strings.IndexOfFrom | fetch_and_push.py:465-466 | the leftmost occurrence of the substring at or after the start; none when there is none |
| Strings.Contains | fetch_and_push.py:217 | `k in s` holds exactly when `k` occurs at some position of `s` |
| Strings.StripLeft | fetch_and_push.py:854 | the result is a suffix of the input, everything cut is whitespace, it starts with a non-blank, and the non-blank characters are kept |
| Strings.StripRight | fetch_and_push.py:854 | the result is a prefix of the input, everything cut is whitespace, it ends with a non-blank, and the non-blank characters are kept |
| Strings.Strip | fetch_and_push.py:854 | `strip()` gives a trimmed slice of the input with the same non-blank characters; a trimmed string is unchanged |
| Strings.StripFacts | fetch_and_push.py:854 | cutting leading and then trailing whitespace leaves a trimmed slice, and cuts nothing from a trimmed string |
| Strings.StripLeftConcat | fetch_and_push.py:854 | `lstrip` of a text starting with a part that ends in a non-blank only touches that part |
| Strings.StripRightConcat | fetch_and_push.py:854 | `rstrip` of a text ending with a part that starts with a non-blank only touches that part |
| Strings.StripLeftBlanks | fetch_and_push.py:854 | `lstrip` removes a leading run of whitespace up to the first non-blank, and only that |
| Strings.StripLeftKeepsLast | fetch_and_push.py:854 | a final non-blank survives `lstrip` |
| Strings.StripAroundBlank | fetch_and_push.py:854 | trimming two words joined by one space trims each and keeps the space |
| Strings.VisibleEmpty | fetch_and_push.py:854 | a text has no non-blank characters exactly when it is all whitespace |
| Strings.StripEmpty | fetch_and_push.py:466-468 | `strip()` gives the empty string exactly when the text is all whitespace |
| Strings.StripKeepsSpacing | fetch_and_push.py:854 | trimming text whose blanks are single spaces keeps them single |
| Strings.CollapseSpaces | fetch_and_push.py:854 | `re.sub(r'\s+', ' ', s)` never lengthens the text and keeps its first character's kind: a leading whitespace run becomes a blank, a leading non-blank is kept as it is (the spacing facts are `CollapseSpacesSpacing`) |
| Strings.CollapseSpacesSpacing | fetch_and_push.py:854 | the collapsed text has single spaces only and the same non-blank characters |
| Strings.CollapseSplit | fetch_and_push.py:854 | text cut after a non-blank collapses piece by piece |
| Strings.CollapseSpacesJoinsWords | fetch_and_push.py:854 | a run of whitespace between two non-blanks becomes exactly one space: the words stay apart |
| Strings.CollapseKeepsLast | fetch_and_push.py:854 | a final non-blank stays last |
| Strings.StripTags | fetch_and_push.py:853 | `re.sub(r'<[^>]+>', '', s)` leaves no `<x…>` tag, never lengthens the text, adds no `>`, and keeps a first character that is not `<` |
| Strings.StripTagsKeepsChar | fetch_and_push.py:853 | a character other than `<` in front is kept in front |
| Strings.StripTagsKeepsPlainPrefix | fetch_and_push.py:853 | a leading run without `<` is kept as it is, in front of the cleaned rest |
| Strings.StripTagsPlainText | fetch_and_push.py:853 | text without `<` is left unchanged |
| Strings.StripTagsUnclosed | fetch_and_push.py:853 | text without `>` is left unchanged: an unclosed `<` is not a tag |
| Strings.StripTagsAtTag | fetch_and_push.py:853 | a leading tag `<x>`, with `x` non-empty and free of `>`, is removed and the rest cleaned |
| Strings.StripTagsDropsTag | fetch_and_push.py:853 | in `p<x>q` with `p` free of `<`, exactly the tag goes: the result is `p` followed by the cleaned `q` |
| Strings.EmptyBracketsKept | fetch_and_push.py:853 | `<>` is not a tag (`[^>]+` needs a character) and is kept |
| Strings.TagFreeCons | fetch_and_push.py:853 | a character kept in front of tag-free text leaves it tag-free |
| Strings.NatToString | fetch_and_push.py:597-608 | `str(n)` is a non-empty string of digits without a leading zero |
| Strings.DecimalRoundTrip | fetch_and_push.py:597-608 | the digits printed for `n` read back as `n` |
| Strings.JoinShowsPart | fetch_and_push.py:599-604 | each appended piece follows the pieces before it in the built text |
| Strings.JoinedPartInContext | fetch_and_push.py:597-608 | a block of the body comes right after the header and the blocks before it |
| Sources.LabelInFirstHit | fetch_and_push.py:216-218 | the scan returns the label of the first key that occurs |
| Sources.LabelInNoHit | fetch_and_push.py:216-219 | the scan returns 'Other' when no key occurs |
| Sources.FeedSourceLabel | fetch_and_push.py:207-219 | a link's label is that of the first table key in the lower-cased link; 'Other' when no key is in it |
| Sources.EarlierEntryWins | fetch_and_push.py:207-219 | a link containing both nature.com and openai.com is labelled Nature Machine Intelligence |
| Relevance.AssumeUtc | fetch_and_push.py:828-829 | a zone-less time gets offset 0 (UTC) and keeps its wall-clock fields; a zoned time is unchanged |
| Relevance.ThresholdIsExclusive | fetch_and_push.py:825-832 | an entry exactly the threshold old is dropped and one a second younger kept; a zone-less time means UTC; an unknown time is dropped |
| Relevance.AlternativeAt | fetch_and_push.py:816 | at one position, the first alternative of the group that matches with word boundaries |
| Relevance.SearchFrom | fetch_and_push.py:816 | `pattern.search`: the leftmost position with a whole-word match, ignoring case, and no match before it |
| Relevance.KeywordFound | fetch_and_push.py:816-836 | the search succeeds exactly when some keyword occurs in the title as a whole word, ignoring case |
| Relevance.EmptyKeywordListMatchesWordyTitles | fetch_and_push.py:816 | with no keywords, `\b()\b` matches exactly the titles containing a word character |
| Relevance.KeywordCaseIrrelevant | fetch_and_push.py:779 | lower-casing the keywords first does not change which titles match |
| Relevance.LowerAll | fetch_and_push.py:779 | `[k.lower() for k in keywords]`, element by element |
| Relevance.EmbeddedKeywordDoesNotMatch | fetch_and_push.py:836 | "process" does not match inside "Preprocessing" but matches standing alone |
| Store.LinksAreUnique | fetch_and_push.py:840-849 | in a table keyed by the digest of each link, no two rows share a link |
| Store.MarkLinks | fetch_and_push.py:620 | `SET sent = 1 WHERE link = ?`: a row ends sent exactly when it was sent or its link is listed, so `sent` only rises; no other field or key changes |
| Store.MarkAll | fetch_and_push.py:252 | `SET sent = 1 WHERE sent = 0`: every row ends sent; no other field or key changes |
| Store.MarkLinksCompose | fetch_and_push.py:535-538 | marking two link sets in turn is marking their union once |
| Store.AddRowCount | fetch_and_push.py:857-861 | storing under a new id adds exactly one row |
| Store.MarkNothing | fetch_and_push.py:535-541 | marking no links leaves the table unchanged |
| Store.NoCommitAfterFailure | fetch_and_push.py:223-245 | a retry loop that stops on a lock at the last attempt, or on any other error, never gets its statement through |
| Store.ItemStore.constructor | fetch_and_push.py:168-169 | the table starts empty |
| Store.ItemStore.FindByLink | fetch_and_push.py:841-842 | the lookup finds a row exactly when some row has the link |
| Store.ItemStore.TryInsert | fetch_and_push.py:857-865 | the insert succeeds exactly when the id is free; a taken id leaves the table unchanged (first write wins) |
| Store.ItemStore.UnsentIds | fetch_and_push.py:496-497 | the selection lists every unsent row exactly once |
| Store.ItemStore.UpdateSentByLink | fetch_and_push.py:222-245 | when some attempt within the retries runs after locks only, the link is marked and the answer is whether a row had it; otherwise nothing changes and the answer is false |
| Store.ItemStore.MarkAllUnsentAsSent | fetch_and_push.py:248-267 | succeeds exactly when the retry gets the statement through, and then every row is sent; otherwise nothing changes |
| Store.ItemStore.MarkBatchAsSent | fetch_and_push.py:616-623 | all links of the batch are marked, or none when a statement of the transaction fails and the connection rolls back |
| Ingest.Screen | fetch_and_push.py:813-836 | an entry leaves the feed exactly when its date parse raises; it is kept exactly when its time is known and recent, its title matches and it has a link; a kept entry carries its title, link and zone-completed time |
| Ingest.LaterClockKeepsLess | fetch_and_push.py:825-832 | an entry kept at a later clock reading is kept identically at an earlier one |
| Ingest.CleanAbstract | fetch_and_push.py:851-854 | the stored abstract (of `summary or description or ''`) is trimmed, has no whitespace but single spaces, keeps every other character of the tag-free text in order, and is empty for an empty input |
| Ingest.CleanPlainAbstract | fetch_and_push.py:853-854 | text without `<` loses no tag: its abstract is the trimmed, space-collapsed text |
| Ingest.CleanAbstractJoinsWords | fetch_and_push.py:853-854 | two tag-free words separated by any run of whitespace are cleaned each and joined by one space, never glued together |
| Ingest.NewRow | fetch_and_push.py:857-861 | the inserted row has the entry's title and link and `sent = 0` |
| Ingest.StopIndex | fetch_and_push.py:818-823 | the entry loop reaches every entry before the first whose date parse raises |
| Ingest.StopsAt | fetch_and_push.py:818-823 | the first entry whose parse raises is where the loop stops |
| Ingest.IngestIsSequential | fetch_and_push.py:794-880 | the run over the feeds acts on the table as the reached entries processed one after another |
| Ingest.StoreEntriesAppend | fetch_and_push.py:813-877 | processing two entry lists in turn is processing their concatenation |
| Ingest.StoreVerdictEffect | fetch_and_push.py:838-867 | one entry keeps every old row, adds at most the one row it counts, under `md5(link)`, built from the entry, and leaves the entry settled |
| Ingest.StoreVerdictGrows | fetch_and_push.py:838-867 | one entry keeps every old row and grows the table by exactly what it counts |
| Ingest.StoreVerdictAdds | fetch_and_push.py:849-861 | the only row one entry can add is its own row under `md5(link)` |
| Ingest.StoreVerdictSettles | fetch_and_push.py:840-867 | after one entry its link is stored or its id is taken |
| Ingest.StoreEntriesGrow | fetch_and_push.py:838-867 | existing rows are never changed and the table grows by exactly `new_articles` |
| Ingest.StoreEntriesProvenance | fetch_and_push.py:838-861 | every added row is the row of a processed entry that passed the filter, under the digest of its link |
| Ingest.StoreEntriesKeyedByLink | fetch_and_push.py:849-861 | the run keeps every row under the digest of its own link |
| Ingest.SettledStays | fetch_and_push.py:840-845 | adding rows never makes a settled entry unsettled |
| Ingest.StoreEntriesSettles | fetch_and_push.py:840-867 | after the run every relevant processed entry has its link stored or its id taken |
| Ingest.SettledEntriesChangeNothing | fetch_and_push.py:840-845 | entries that are all settled change nothing and insert nothing |
| Ingest.IngestIsIdempotent | fetch_and_push.py:772-880 | a second run on the same feeds, at the same time or later, inserts nothing and leaves the table unchanged |
| Ingest.IngestEffect | fetch_and_push.py:794-880 | the run keeps old rows, grows the table by `new_articles`, keeps it keyed by link, adds only unsent rows built from relevant entries, and stores every relevant reached entry |
| Ingest.FetchAndStore | fetch_and_push.py:790-880 | the feed loop leaves the table and the three counters that `IngestFeeds` gives |
| Ingest.ProcessFeed | fetch_and_push.py:796-812 | a malformed feed counts nothing; a parsed one counts all its entries and runs the entry loop |
| Ingest.ScreenEntries | fetch_and_push.py:813-877 | the entry loop leaves the table and counts the insertions of the reached entries processed in order; the entry that raised counts as processed |
| Ingest.StoreEntry | fetch_and_push.py:838-867 | a kept entry with a new link is inserted under `md5(link)` unless the id is taken; anything else changes nothing |
| Ingest.StoreEntriesStep | fetch_and_push.py:813-877 | proof step: one more entry continues from the table the earlier ones left |
| Batching.BatchCount | fetch_and_push.py:511-512 | `(n + 9) // 10` is the least number of batches of ten holding `n` items; zero exactly for no items |
| Batching.Batch | fetch_and_push.py:515-518 | batch `k` is `s[10k : min(10k+10, n)]`: never empty, full unless last, the last holding the rest |
| Batching.Batches | fetch_and_push.py:515-518 | the list of the first `k` batches, in order |
| Batching.BatchBoundary | fetch_and_push.py:516-517 | consecutive batches meet: batch `k-1` ends where batch `k` starts, and the last ends at `n` |
| Batching.BatchesFlattenToPrefix | fetch_and_push.py:515-518 | the first `k` batches concatenated are the first `10k` items |
| Batching.BatchesConcatenateToInput | fetch_and_push.py:515-518 | all batches concatenated in order are the input |
| Batching.ItemInItsBatch | fetch_and_push.py:515-518 | item `i` is at position `i % 10` of batch `i / 10` |
| Messages.TopicOf | fetch_and_push.py:573-585 | an article's topic is that of the first category with a substring in its lower-cased title and summary; none when no category applies |
| Messages.Tally | fetch_and_push.py:572-585 | the tally has at most one entry per article |
| Messages.CountOfStep | fetch_and_push.py:572-585 | counting the articles with a given topic over one more article adds one exactly when it has that topic |
| Messages.TallyCounts | fetch_and_push.py:572-588 | each topic occurs in `key_topics` exactly as often as there are articles whose topic it is |
| Messages.TallyEmpty | fetch_and_push.py:572-587 | `key_topics` is empty exactly when no article has a topic |
| Messages.TallyFrom | fetch_and_push.py:572-585 | every tallied topic is the topic of some article |
| Messages.CollectTopics | fetch_and_push.py:572-585 | the loop builds `key_topics` in batch order |
| Messages.PickMostCommon | fetch_and_push.py:588 | the topic picked is in the tally and no topic occurs more often |
| Messages.Influence | fetch_and_push.py:587-591 | the topic phrase is a most frequent topic plus 重大突破, or 前沿技术进展 when the tally is empty |
| Messages.NoTopicMeansDefaultInfluence | fetch_and_push.py:587-591 | a batch without any topic is described as 前沿技术进展 |
| Messages.InfluenceNamesMostFrequentTopic | fetch_and_push.py:587-591 | when some article has a topic, the phrase names a topic that no other topic outnumbers among the batch's articles |
| Messages.InfluenceEnding | fetch_and_push.py:589-591 | a topic phrase is non-empty and ends in 破 or 展 |
| Messages.RenderFallback | fetch_and_push.py:570-608 | the plain-text message is the subject and the body below for the batch's topic phrase |
| Messages.RenderSubject | fetch_and_push.py:593-595 | the subject is AI前沿+ the topic phrase, then the batch tag when there are several batches |
| Messages.RenderBody | fetch_and_push.py:597-608 | the appending loop builds the header, one block per article in order, and the note when there are several batches |
| Messages.FallbackListsEveryArticle | fetch_and_push.py:599-604 | for every article, its block follows the header and the blocks of all earlier articles in the body |
| Messages.ItemBlockShowsArticle | fetch_and_push.py:599-604 | a block starts with the number and title and contains the source, publish time, summary and link |
| Messages.BatchTagOnlyWhenSeveral | fetch_and_push.py:593-595 | the subject ends with （第n批） exactly when there is more than one batch |
| Messages.BatchNoteOnlyWhenSeveral | fetch_and_push.py:607-608 | the body ends with the batch note exactly when there is more than one batch |
| Reply.SeparatorAt | fetch_and_push.py:465-466 | the first `---` of the reply, or none when it has none |
| Reply.SplitReply | fetch_and_push.py:463-471 | a reply with `---` is cut at its first `---` into a trimmed subject without `---` and a trimmed body; one without gives the default subject and the whole trimmed reply |
| Reply.SplitTrimmed | fetch_and_push.py:465-471 | the same cut at the first `---`, on an already trimmed reply |
| Reply.UsableReply | fetch_and_push.py:463-472 | the reply yields a non-empty subject and body (so the rewritten message is sent) exactly when its trimmed text is non-empty and, if it has `---`, the first one is neither at its very start nor at its very end |
| Reply.FirstSeparatorLeavesNoneBefore | fetch_and_push.py:466-467 | the trimmed text before the first `---` holds no `---` |
| Reply.SplitReplyRoundTrip | fetch_and_push.py:463-468 | a trimmed subject without `---` and not ending in '-', `---` and a trimmed body are read back as that subject and body |
| Reply.SplitAtFirst | fetch_and_push.py:466-468 | proof step: a reply is cut at its first `---` |
| Reply.JoinedReplyTrimmed | fetch_and_push.py:463 | such a joined reply is already trimmed |
| Reply.SeparatorAfterSubject | fetch_and_push.py:466 | its first `---` is the one right after the subject |
| Dispatch.ArticlesOf | fetch_and_push.py:505-509 | article `i` is built from selected row `i`: summary from the abstract or else the title, source label from the link |
| Dispatch.ArticlesOfStep | fetch_and_push.py:505-509 | proof step: one more row adds one article at the end |
| Dispatch.LoadArticles | fetch_and_push.py:505-509 | the loop builds the articles of the selected rows in order |
| Dispatch.ComposeBatch | fetch_and_push.py:522-533 | with rewriting configured and a reply, the reply's subject and body are sent if both are non-empty; in every other case the plain-text message; it reports the rewritten one exactly when the reply is usable |
| Dispatch.ComposedAllExtend | fetch_and_push.py:515-533 | proof step: one more composed message extends the outbox of composed messages |
| Dispatch.ComposedAt | fetch_and_push.py:515-533 | message `k` of the outbox is the one composed for batch `k` |
| Dispatch.BatchLinks | fetch_and_push.py:515-518 | the links of batch `b` are exactly the links of the articles at positions `10b` to `10b + 9` |
| Dispatch.ConfirmedLinksExactly | fetch_and_push.py:535-541 | a link is marked by the first `k` batches exactly when it belongs to an article of a delivered batch among them whose marking went through |
| Dispatch.ConfirmedLinksStep | fetch_and_push.py:535-541 | proof step: marking batch `k` after the first `k` batches is marking the first `k + 1` |
| Dispatch.SentExactlyForConfirmedBatches | fetch_and_push.py:535-541 | after the first `k` batches a selected row is sent exactly when its batch is one of them and was delivered and marked; every other row keeps its flag |
| Dispatch.FirstHalt | fetch_and_push.py:515-549 | the first batch whose rewritten message's delivery raises, or the batch count when there is none |
| Dispatch.Attempted | fetch_and_push.py:515-549 | the batches attempted: all of them, or those up to and including the first whose rewritten delivery raises, with none before it raising |
| Dispatch.HaltBoundary | fetch_and_push.py:522-549 | a batch before the first halt either raises, and then it is the last one attempted, or lets the loop go on |
| Dispatch.DeliverBatch | fetch_and_push.py:522-533 | the batch's composed message extends the outbox; `success` holds exactly when delivery went out; the dispatch ends exactly when the rewritten message's delivery raised (the plain-text path catches that) |
| Dispatch.SendBatch | fetch_and_push.py:515-541 | one batch appends its composed message and leaves the table the first `k + 1` batches leave: its links marked exactly when it was delivered and the transaction went through; it reports whether it ends the dispatch |
| Dispatch.SendAll | fetch_and_push.py:515-549 | one composed message per attempted batch, in order, the attempted batches being all of them or those up to the first whose rewritten delivery raises; the table is marked with exactly the links of the confirmed attempted batches |
| Dispatch.DispatchPending | fetch_and_push.py:493-549 | every unsent row is selected once; one message is composed per attempted batch of ten (none when nothing is unsent), stopping after a rewritten delivery that raises; the links of the confirmed attempted batches, and only those, are marked |

## Left out

- The database setup (path resolution, permission repair, PRAGMAs, the startup retry of `CREATE TABLE`): the table is an in-memory map.
- `validate_rss_feeds` and `feedparser.parse`: network I/O; the parsed feeds are an input sequence, and a feed the parser refused or flagged is `Malformed`.
- The internals of `send_email_notification` (apprise, retries, backoff in floating point): delivery is a per-batch parameter with three outcomes: it went out, it reported failure, or it raised (an unreadable retry setting or a notifier that cannot be added).
- Prompt construction and the client call in `call_doubao_llm_batch` and `call_doubao_llm`: the reply, or its absence after an exception, is a per-batch parameter. Only the reading of the reply is modelled.
- `send_notification` (SIGALRM timeout), `send_traditional_batch` and `test_email_configuration`: not on the scheduled path.
- The `schedule` loop, `time.sleep` pauses and all logging, including the `successful_batches` count, which is only logged.
- `dateutil` parsing, `hashlib.md5` and `datetime.isoformat`: parameters. Times are whole seconds; microseconds are not modelled.
- The exception branch around the age computation (`fetch_and_push.py:833-835`): it cannot be reached once the zone is filled in.
- Store.ItemStore.TryInsert: does not model insert errors other than a primary-key conflict. The source logs those and moves on to the next entry.
- Ingest.StoreEntry: does not model a failure to open the connection or an exception from the duplicate-link `SELECT` (`fetch_and_push.py:839-842`, for instance a locked database). The source catches those in the per-entry handler (`fetch_and_push.py:874-876`) and skips the entry without storing it; the model always completes the lookup. Nor does it model a failure of the commit made when the per-entry `with DatabaseConnection()` block exits (`fetch_and_push.py:151-157`): by then `new_articles` has already been incremented (`fetch_and_push.py:862`), so when that commit raises (a disk error, or a lock) the handler at `fetch_and_push.py:874-876` skips the entry and the source counts an insertion it did not keep. The model commits every insert it counts.
- Ingest.StoreEntriesGrow: the table grows by exactly `new_articles` only because every counted insert commits in the model; a failed commit on leaving the `with` block would make the source's counter exceed the growth.
- Ingest.IngestEffect: likewise, growth equal to `new_articles` holds for the model, not for a run in which a per-entry commit fails after the count.
- Ingest.FetchAndStore: every entry of the run is judged against one clock reading `now`. The source reads `datetime.now` again for each entry (`fetch_and_push.py:827`), so an entry near the age threshold can be dropped that the model keeps when time passes during the run (a slow feed fetch, say). `LaterClockKeepsLess` bounds this: an entry kept at a later reading is also kept at the earlier one.
- Ingest.ProcessFeed: judges all entries of a feed at the one reading `now`, where the source reads the clock per entry (`fetch_and_push.py:827`).
- Ingest.ScreenEntries: the entry loop uses the one reading `now`, where the source reads the clock per entry (`fetch_and_push.py:827`).
- Dispatch.DispatchPending: does not model an exception raised by the `SELECT` or while building the articles. The source would abandon the whole dispatch.
- Store.ItemStore.UnsentIds: the order of the selected rows is left open, as SQL leaves it; only "every unsent row exactly once" is stated.
- Messages.PickMostCommon: the tie-break among equally frequent topics depends on Python's set order, so the model states only that some most frequent topic is chosen.
- Strings.Lower: lower-cases ASCII letters only. `str.lower` and `re.IGNORECASE` also fold other scripts.
- Relevance.KeywordFound: which characters are word characters for `\b` is a parameter, not Unicode's `\w` table.
