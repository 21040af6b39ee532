/** The ingestion run: every validated feed is parsed, every entry of it is
    screened (publish time, title keywords) and every relevant entry whose
    link is not stored yet becomes a new, unsent row.

    The feed parser, the date parser, the MD5 digest, `isoformat` and the
    clock are outside the model: the parsed feeds, the clock reading and
    the other capabilities are parameters. */
module Ingest {
  import opened Strings
  import opened Relevance
  import opened Store

  /** A parsed feed entry; an attribute the entry does not have is `None`. */
  datatype Entry = Entry(
    title: Option<string>,
    link: Option<string>,
    published: Option<string>,
    summary: Option<string>,
    description: Option<string>)

  /** One validated feed as the parser hands it over: its entries, or a
      document the parser refused (it raised, or flagged the feed as
      malformed). */
  datatype Feed = Fetched(entries: seq<Entry>) | Malformed

  /** The capabilities the run calls: the date parser, the hex MD5 digest of
      a link, `datetime.isoformat`, and the `\w` character class. */
  datatype Oracles = Oracles(
    parseDate: string -> DateParse,
    digest: string -> string,
    isoFormat: Timestamp -> string,
    isWord: char -> bool)

  /** The keyword list as loaded and the age limit in hours. */
  datatype Config = Config(keywords: seq<string>, thresholdHours: int)

  /** The run's statistics: entries in parsed feeds, entries reached by the
      entry loop, rows inserted. */
  datatype Counters = Counters(total: nat, processed: nat, inserted: nat)

  function AddCounters(a: Counters, b: Counters): Counters
  {
    Counters(a.total + b.total, a.processed + b.processed, a.inserted + b.inserted)
  }

  // ------------------------------------------------------------- screening

  /** Parsing the entry's publish time raises an exception the entry loop
      does not catch, which ends the processing of the whole feed. */
  predicate Crashes(e: Entry, env: Oracles)
  {
    e.published.Some? && env.parseDate(e.published.value).Crashed?
  }

  /** The publish time the filter sees: the parsed time, or none when the
      entry has no publish time or it could not be parsed. */
  function PublishTime(e: Entry, env: Oracles): Option<Timestamp>
  {
    if e.published.Some? && env.parseDate(e.published.value).Parsed? then
      Some(env.parseDate(e.published.value).time)
    else None
  }

  /** What the entry loop does with one entry: keep it (with the title, link
      and zone-completed publish time the insert uses), skip it, or leave
      the feed. */
  datatype Verdict = Keep(title: string, link: string, published: Timestamp) | Skip | AbortFeed

  function Screen(e: Entry, cfg: Config, env: Oracles, now: int): (v: Verdict)
    ensures v.AbortFeed? <==> Crashes(e, env)
    ensures v.Keep? <==>
      && !Crashes(e, env)
      && RecentEnough(PublishTime(e, env), now, cfg.thresholdHours)
      && e.title.Some? && TitleMatches(e.title.value, cfg.keywords, env.isWord)
      && e.link.Some?
    ensures v.Keep? ==>
      && v.title == e.title.value && v.link == e.link.value
      && v.published == AssumeUtc(PublishTime(e, env).value)
      && v.published.utcOffset.Some?
  {
    var time := PublishTime(e, env);
    if Crashes(e, env) then AbortFeed
    else if !RecentEnough(time, now, cfg.thresholdHours) then Skip
    else if e.title.None? then Skip
    else if !KeywordFound(e.title.value, LowerAll(cfg.keywords), env.isWord) then
      KeywordCaseIrrelevant(e.title.value, cfg.keywords, env.isWord);
      Skip
    else if e.link.None? then Skip
    else
      KeywordCaseIrrelevant(e.title.value, cfg.keywords, env.isWord);
      Keep(e.title.value, e.link.value, AssumeUtc(time.value))
  }

  /** A later clock never keeps an entry an earlier one dropped, and the
      entry it keeps is kept with the same fields. */
  lemma LaterClockKeepsLess(e: Entry, cfg: Config, env: Oracles, now: int, later: int)
    requires now <= later
    requires Screen(e, cfg, env, later).Keep?
    ensures Screen(e, cfg, env, now) == Screen(e, cfg, env, later)
  {
  }

  // -------------------------------------------------------------- abstract

  /** `summary or description or ''`: an empty summary counts as missing. */
  function RawAbstract(e: Entry): string
  {
    if e.summary.Some? && e.summary.value != [] then e.summary.value
    else if e.description.Some? && e.description.value != [] then e.description.value
    else []
  }

  /** The abstract stored with a new row: markup tags removed, every
      whitespace run turned into one blank, both ends trimmed; it keeps
      every other character of the tag-free text, in order. */
  function CleanAbstract(raw: string): (r: string)
    ensures Trimmed(r) && NoDoubleSpace(r) && BlanksOnly(r)
    ensures Visible(r) == Visible(StripTags(raw))
    ensures raw == [] ==> r == []
  {
    if raw == [] then []
    else
      var collapsed := CollapseSpaces(StripTags(raw));
      CollapseSpacesSpacing(StripTags(raw));
      StripKeepsSpacing(collapsed);
      Strip(collapsed)
  }

  /** On text without markup, cleaning is collapsing and trimming. */
  lemma CleanPlainAbstract(s: string)
    requires s != [] && forall i :: 0 <= i < |s| ==> s[i] != '<'
    ensures CleanAbstract(s) == Strip(CollapseSpaces(s))
  {
    StripTagsPlainText(s);
  }

  /** Cleaning never glues two words together: text without markup whose
      words are separated by a whitespace run is cleaned word part by word
      part, with exactly one blank between the parts. */
  lemma CleanAbstractJoinsWords(p: string, w: string, q: string)
    requires p != [] && !IsSpace(p[|p| - 1]) && forall i :: 0 <= i < |p| ==> p[i] != '<'
    requires w != [] && forall i :: 0 <= i < |w| ==> IsSpace(w[i])
    requires q != [] && !IsSpace(q[0]) && forall i :: 0 <= i < |q| ==> q[i] != '<'
    ensures CleanAbstract(p + w + q) == CleanAbstract(p) + " " + CleanAbstract(q)
  {
    forall i | 0 <= i < |w| ensures w[i] != '<' {
      assert IsSpace(w[i]);
    }
    AbsentFromConcat(p, w, '<');
    AbsentFromConcat(p + w, q, '<');
    CleanPlainAbstract(p + w + q);
    CleanPlainAbstract(p);
    CleanPlainAbstract(q);
    CollapseSpacesJoinsWords(p, w, q);
    CollapseKeepsLast(p);
    StripAroundBlank(CollapseSpaces(p), CollapseSpaces(q));
  }

  // ---------------------------------------------------------------- insert

  /** The row inserted for a kept entry; `sent` starts at 0. */
  function NewRow(e: Entry, v: Verdict, env: Oracles): (row: Row)
    requires v.Keep?
    ensures row.link == v.link && row.title == v.title && !row.sent
  {
    Row(v.title, v.link, env.isoFormat(v.published), CleanAbstract(RawAbstract(e)), false)
  }

  /** A verdict is dealt with in `t`: it does not keep the entry, or the
      kept link is stored, or its id is taken. Processing the entry once
      more changes nothing. */
  predicate Settled(t: Table, v: Verdict, env: Oracles)
  {
    !v.Keep? || HasLink(t, v.link) || env.digest(v.link) in t
  }

  /** The effect of one screened entry on the table and whether a row was
      inserted: a kept entry whose link is new is inserted under the digest
      of its link unless that id is taken. */
  function StoreVerdict(t: Table, e: Entry, v: Verdict, env: Oracles): (Table, bool)
  {
    if Settled(t, v, env) then (t, false)
    else (t[env.digest(v.link) := NewRow(e, v, env)], true)
  }

  /** The entries `es` processed in order: the table after them and the
      number of rows inserted. */
  function StoreEntries(t: Table, es: seq<Entry>, cfg: Config, env: Oracles, now: int): (Table, nat)
    decreases |es|
  {
    if es == [] then (t, 0)
    else
      var prior := StoreEntries(t, es[..|es| - 1], cfg, env, now);
      var e := es[|es| - 1];
      var last := StoreVerdict(prior.0, e, Screen(e, cfg, env, now), env);
      (last.0, prior.1 + if last.1 then 1 else 0)
  }

  /** How many entries of a feed the entry loop gets through without the
      feed being abandoned: up to the first crashing entry, or all. */
  function StopIndex(es: seq<Entry>, env: Oracles): (k: nat)
    ensures k <= |es|
    ensures forall i :: 0 <= i < k ==> !Crashes(es[i], env)
    ensures k < |es| ==> Crashes(es[k], env)
  {
    var hit := FirstIndex(es, (e: Entry) => Crashes(e, env));
    if hit.Some? then hit.value else |es|
  }

  /** One feed: the table after it and its share of the statistics. A
      malformed feed counts nothing; a crashing entry is counted as
      processed and ends the feed. */
  function StoreFeed(t: Table, f: Feed, cfg: Config, env: Oracles, now: int): (Table, Counters)
  {
    if f.Malformed? then (t, Counters(0, 0, 0))
    else
      var k := StopIndex(f.entries, env);
      var r := StoreEntries(t, f.entries[..k], cfg, env, now);
      (r.0, Counters(|f.entries|, if k < |f.entries| then k + 1 else k, r.1))
  }

  /** The whole run over the validated feeds in order. */
  function IngestFeeds(t: Table, feeds: seq<Feed>, cfg: Config, env: Oracles, now: int): (Table, Counters)
    decreases |feeds|
  {
    if feeds == [] then (t, Counters(0, 0, 0))
    else
      var prior := IngestFeeds(t, feeds[..|feeds| - 1], cfg, env, now);
      var last := StoreFeed(prior.0, feeds[|feeds| - 1], cfg, env, now);
      (last.0, AddCounters(prior.1, last.1))
  }

  /** The entries the run reaches and does not abandon, feed after feed. */
  function Reached(feeds: seq<Feed>, env: Oracles): seq<Entry>
    decreases |feeds|
  {
    if feeds == [] then []
    else
      var f := feeds[|feeds| - 1];
      Reached(feeds[..|feeds| - 1], env) + (if f.Fetched? then f.entries[..StopIndex(f.entries, env)] else [])
  }

  /** The run over the feeds does to the table what processing the reached
      entries one after another does. */
  lemma {:induction false} IngestIsSequential(t: Table, feeds: seq<Feed>, cfg: Config, env: Oracles, now: int)
    ensures IngestFeeds(t, feeds, cfg, env, now).0 == StoreEntries(t, Reached(feeds, env), cfg, env, now).0
    ensures IngestFeeds(t, feeds, cfg, env, now).1.inserted == StoreEntries(t, Reached(feeds, env), cfg, env, now).1
    decreases |feeds|
  {
    if feeds != [] {
      var init := feeds[..|feeds| - 1];
      var f := feeds[|feeds| - 1];
      IngestIsSequential(t, init, cfg, env, now);
      var mid := StoreEntries(t, Reached(init, env), cfg, env, now);
      var more := if f.Fetched? then f.entries[..StopIndex(f.entries, env)] else [];
      StoreEntriesAppend(t, Reached(init, env), more, cfg, env, now);
    }
  }

  /** Processing `a` and then `b` is processing `a + b`. */
  lemma {:induction false} StoreEntriesAppend(t: Table, a: seq<Entry>, b: seq<Entry>, cfg: Config, env: Oracles, now: int)
    ensures StoreEntries(t, a + b, cfg, env, now).0
         == StoreEntries(StoreEntries(t, a, cfg, env, now).0, b, cfg, env, now).0
    ensures StoreEntries(t, a + b, cfg, env, now).1
         == StoreEntries(t, a, cfg, env, now).1 + StoreEntries(StoreEntries(t, a, cfg, env, now).0, b, cfg, env, now).1
    decreases |b|
  {
    if b == [] {
      assert a + b == a;
    } else {
      assert (a + b)[..|a + b| - 1] == a + b[..|b| - 1];
      assert (a + b)[|a + b| - 1] == b[|b| - 1];
      StoreEntriesAppend(t, a, b[..|b| - 1], cfg, env, now);
    }
  }

  // ------------------------------------------------------------ properties

  /** `after` holds every row of `before`, unchanged. */
  predicate Extends(before: Table, after: Table)
  {
    forall id :: id in before ==> id in after && after[id] == before[id]
  }

  /** One entry: the table only grows, by the one row counted as inserted,
      which is the unsent row built from the entry, under the digest of its
      link; afterwards the entry is settled. */
  lemma StoreVerdictEffect(t: Table, e: Entry, v: Verdict, env: Oracles)
    ensures var r := StoreVerdict(t, e, v, env);
      && Extends(t, r.0)
      && |r.0.Keys| == |t.Keys| + (if r.1 then 1 else 0)
      && (forall id :: id in r.0 && id !in t ==>
            v.Keep? && id == env.digest(v.link) && r.0[id] == NewRow(e, v, env))
      && Settled(r.0, v, env)
  {
    StoreVerdictGrows(t, e, v, env);
    StoreVerdictAdds(t, e, v, env);
    StoreVerdictSettles(t, e, v, env);
  }

  lemma StoreVerdictGrows(t: Table, e: Entry, v: Verdict, env: Oracles)
    ensures var r := StoreVerdict(t, e, v, env);
      Extends(t, r.0) && |r.0.Keys| == |t.Keys| + (if r.1 then 1 else 0)
  {
    if !Settled(t, v, env) {
      AddRowCount(t, env.digest(v.link), NewRow(e, v, env));
    }
  }

  lemma StoreVerdictAdds(t: Table, e: Entry, v: Verdict, env: Oracles)
    ensures var r := StoreVerdict(t, e, v, env);
      forall id :: id in r.0 && id !in t ==> v.Keep? && id == env.digest(v.link) && r.0[id] == NewRow(e, v, env)
  {
  }

  lemma StoreVerdictSettles(t: Table, e: Entry, v: Verdict, env: Oracles)
    ensures Settled(StoreVerdict(t, e, v, env).0, v, env)
  {
  }

  /** The rows a run adds, and how many: rows already stored are never
      touched (the first write wins) and the table grows by exactly the rows
      counted as inserted. */
  lemma {:induction false} StoreEntriesGrow(t: Table, es: seq<Entry>, cfg: Config, env: Oracles, now: int)
    ensures Extends(t, StoreEntries(t, es, cfg, env, now).0)
    ensures |StoreEntries(t, es, cfg, env, now).0.Keys| == |t.Keys| + StoreEntries(t, es, cfg, env, now).1
    decreases |es|
  {
    if es != [] {
      var init := es[..|es| - 1];
      StoreEntriesGrow(t, init, cfg, env, now);
      var e := es[|es| - 1];
      StoreVerdictEffect(StoreEntries(t, init, cfg, env, now).0, e, Screen(e, cfg, env, now), env);
    }
  }

  /** Entry `e` passes the filter and yields `row` under `id`. */
  predicate Produces(e: Entry, id: string, row: Row, cfg: Config, env: Oracles, now: int)
  {
    var v := Screen(e, cfg, env, now);
    v.Keep? && id == env.digest(v.link) && row == NewRow(e, v, env)
  }

  /** Some entry of `es` yields `row` under `id`. */
  ghost predicate BuiltFrom(row: Row, id: string, es: seq<Entry>, cfg: Config, env: Oracles, now: int)
  {
    exists j :: 0 <= j < |es| && Produces(es[j], id, row, cfg, env, now)
  }

  /** Every row the run adds is the row built from one of the processed
      entries that passed the filter, stored under the digest of its link. */
  lemma {:induction false} StoreEntriesProvenance(t: Table, es: seq<Entry>, cfg: Config, env: Oracles, now: int)
    ensures forall id :: id in StoreEntries(t, es, cfg, env, now).0 && id !in t ==>
      BuiltFrom(StoreEntries(t, es, cfg, env, now).0[id], id, es, cfg, env, now)
    decreases |es|
  {
    if es != [] {
      var init := es[..|es| - 1];
      var e := es[|es| - 1];
      StoreEntriesProvenance(t, init, cfg, env, now);
      var mid := StoreEntries(t, init, cfg, env, now).0;
      var after := StoreEntries(t, es, cfg, env, now).0;
      StoreVerdictEffect(mid, e, Screen(e, cfg, env, now), env);
      forall id | id in after && id !in t ensures BuiltFrom(after[id], id, es, cfg, env, now) {
        if id in mid {
          var j :| 0 <= j < |init| && Produces(init[j], id, mid[id], cfg, env, now);
          assert init[j] == es[j] && after[id] == mid[id];
          assert Produces(es[j], id, after[id], cfg, env, now);
        } else {
          assert Produces(es[|es| - 1], id, after[id], cfg, env, now);
        }
      }
    }
  }

  /** The run keeps the table keyed by the digest of each row's link. */
  lemma {:induction false} StoreEntriesKeyedByLink(t: Table, es: seq<Entry>, cfg: Config, env: Oracles, now: int)
    requires KeyedByLink(t, env.digest)
    ensures KeyedByLink(StoreEntries(t, es, cfg, env, now).0, env.digest)
    decreases |es|
  {
    if es != [] {
      StoreEntriesKeyedByLink(t, es[..|es| - 1], cfg, env, now);
    }
  }

  /** Growing a table never unsettles an entry. */
  lemma SettledStays(t: Table, u: Table, v: Verdict, env: Oracles)
    requires Extends(t, u) && Settled(t, v, env)
    ensures Settled(u, v, env)
  {
    if v.Keep? && HasLink(t, v.link) {
      var id :| id in t && t[id].link == v.link;
      assert u[id].link == v.link;
    }
  }

  /** After the run every entry it processed is settled: each relevant entry
      has its link stored or its id taken. */
  lemma {:induction false} StoreEntriesSettles(t: Table, es: seq<Entry>, cfg: Config, env: Oracles, now: int)
    ensures forall j :: 0 <= j < |es| ==> Settled(StoreEntries(t, es, cfg, env, now).0, Screen(es[j], cfg, env, now), env)
    decreases |es|
  {
    if es != [] {
      var init := es[..|es| - 1];
      StoreEntriesSettles(t, init, cfg, env, now);
      var mid := StoreEntries(t, init, cfg, env, now).0;
      var after := StoreEntries(t, es, cfg, env, now).0;
      var e := es[|es| - 1];
      StoreVerdictGrows(mid, e, Screen(e, cfg, env, now), env);
      StoreVerdictSettles(mid, e, Screen(e, cfg, env, now), env);
      assert after == StoreVerdict(mid, e, Screen(e, cfg, env, now), env).0;
      forall j | 0 <= j < |es| ensures Settled(after, Screen(es[j], cfg, env, now), env) {
        if j < |init| {
          assert es[j] == init[j];
          SettledStays(mid, after, Screen(es[j], cfg, env, now), env);
        } else {
          assert es[j] == e;
        }
      }
    }
  }

  /** Entries that are all settled leave the table as it is. */
  lemma {:induction false} SettledEntriesChangeNothing(t: Table, es: seq<Entry>, cfg: Config, env: Oracles, now: int)
    requires forall j :: 0 <= j < |es| ==> Settled(t, Screen(es[j], cfg, env, now), env)
    ensures StoreEntries(t, es, cfg, env, now) == (t, 0)
    decreases |es|
  {
    if es != [] {
      SettledEntriesChangeNothing(t, es[..|es| - 1], cfg, env, now);
    }
  }

  /** Running the whole ingestion again on the same feeds, at the same time
      or later, inserts nothing and changes nothing. */
  lemma {:induction false} IngestIsIdempotent(t: Table, feeds: seq<Feed>, cfg: Config, env: Oracles, now: int, later: int)
    requires now <= later
    ensures var first := IngestFeeds(t, feeds, cfg, env, now).0;
      IngestFeeds(first, feeds, cfg, env, later) == (first, IngestFeeds(first, feeds, cfg, env, later).1)
      && IngestFeeds(first, feeds, cfg, env, later).1.inserted == 0
  {
    var es := Reached(feeds, env);
    var first := IngestFeeds(t, feeds, cfg, env, now).0;
    IngestIsSequential(t, feeds, cfg, env, now);
    StoreEntriesSettles(t, es, cfg, env, now);
    forall j | 0 <= j < |es| ensures Settled(first, Screen(es[j], cfg, env, later), env) {
      if Screen(es[j], cfg, env, later).Keep? {
        LaterClockKeepsLess(es[j], cfg, env, now, later);
      }
    }
    SettledEntriesChangeNothing(first, es, cfg, env, later);
    IngestIsSequential(first, feeds, cfg, env, later);
  }

  /** The run's effect on the table, stated over the feeds: old rows kept,
      the growth counted, new rows unsent and built from relevant reached
      entries, the table still keyed by link, and afterwards every relevant
      reached entry stored under the digest of its link. */
  lemma IngestEffect(t: Table, feeds: seq<Feed>, cfg: Config, env: Oracles, now: int)
    requires KeyedByLink(t, env.digest)
    ensures var r := IngestFeeds(t, feeds, cfg, env, now);
      && Extends(t, r.0)
      && |r.0.Keys| == |t.Keys| + r.1.inserted
      && KeyedByLink(r.0, env.digest)
      && (forall id :: id in r.0 && id !in t ==> !r.0[id].sent)
      && (forall id :: id in r.0 && id !in t ==> BuiltFrom(r.0[id], id, Reached(feeds, env), cfg, env, now))
      && (forall j :: 0 <= j < |Reached(feeds, env)| && Screen(Reached(feeds, env)[j], cfg, env, now).Keep? ==>
            env.digest(Reached(feeds, env)[j].link.value) in r.0)
  {
    var es := Reached(feeds, env);
    var after := IngestFeeds(t, feeds, cfg, env, now).0;
    IngestIsSequential(t, feeds, cfg, env, now);
    StoreEntriesGrow(t, es, cfg, env, now);
    StoreEntriesProvenance(t, es, cfg, env, now);
    StoreEntriesKeyedByLink(t, es, cfg, env, now);
    StoreEntriesSettles(t, es, cfg, env, now);
    forall id | id in after && id !in t ensures !after[id].sent {
      var j :| 0 <= j < |es| && Produces(es[j], id, after[id], cfg, env, now);
    }
    forall j | 0 <= j < |es| && Screen(es[j], cfg, env, now).Keep?
      ensures env.digest(es[j].link.value) in after
    {
      var link := es[j].link.value;
      if HasLink(after, link) {
        var id :| id in after && after[id].link == link;
      }
    }
  }

  /** The ingestion run, statement by statement, against the item store. */
  method FetchAndStore(store: ItemStore, feeds: seq<Feed>, cfg: Config, env: Oracles, now: int)
    returns (counters: Counters)
    modifies store
    ensures (store.rows, counters) == IngestFeeds(old(store.rows), feeds, cfg, env, now)
  {
    counters := Counters(0, 0, 0);
    for i := 0 to |feeds|
      invariant (store.rows, counters) == IngestFeeds(old(store.rows), feeds[..i], cfg, env, now)
    {
      assert feeds[..i + 1][..i] == feeds[..i];
      var c := ProcessFeed(store, feeds[i], cfg, env, now);
      counters := AddCounters(counters, c);
    }
    assert feeds[..|feeds|] == feeds;
  }

  /** One feed of the run: a malformed feed counts nothing; otherwise every
      entry counts towards the total and the entry loop runs. */
  method ProcessFeed(store: ItemStore, feed: Feed, cfg: Config, env: Oracles, now: int)
    returns (counters: Counters)
    modifies store
    ensures (store.rows, counters) == StoreFeed(old(store.rows), feed, cfg, env, now)
  {
    counters := Counters(0, 0, 0);
    if feed.Fetched? {
      var processed, inserted := ScreenEntries(store, feed.entries, cfg, env, now);
      counters := Counters(|feed.entries|, processed, inserted);
    }
  }

  /** The entry loop of one feed, which stops early at an entry whose
      publish time cannot be parsed; that entry still counts as processed. */
  method ScreenEntries(store: ItemStore, entries: seq<Entry>, cfg: Config, env: Oracles, now: int)
    returns (processed: nat, inserted: nat)
    modifies store
    ensures var k := StopIndex(entries, env);
      && store.rows == StoreEntries(old(store.rows), entries[..k], cfg, env, now).0
      && inserted == StoreEntries(old(store.rows), entries[..k], cfg, env, now).1
      && processed == if k < |entries| then k + 1 else k
  {
    ghost var start := store.rows;
    processed, inserted := 0, 0;
    var j := 0;
    while j < |entries|
      invariant j <= StopIndex(entries, env)
      invariant processed == j
      invariant store.rows == StoreEntries(start, entries[..j], cfg, env, now).0
      invariant inserted == StoreEntries(start, entries[..j], cfg, env, now).1
    {
      processed := processed + 1;
      var verdict := Screen(entries[j], cfg, env, now);
      if verdict.AbortFeed? {
        StopsAt(entries, env, j);
        break;
      }
      StoreEntriesStep(start, entries, j, cfg, env, now);
      var added := StoreEntry(store, entries[j], verdict, env);
      if added {
        inserted := inserted + 1;
      }
      j := j + 1;
    }
  }

  /** The first crashing entry is where the entry loop stops. */
  lemma StopsAt(es: seq<Entry>, env: Oracles, j: nat)
    requires j < |es| && j <= StopIndex(es, env) && Crashes(es[j], env)
    ensures j == StopIndex(es, env)
  {
  }

  /** One entry that was not abandoned: a kept entry is looked up by link
      and, when its link is new, inserted under the digest of the link; an
      id that is already taken leaves the table as it is. */
  method StoreEntry(store: ItemStore, e: Entry, verdict: Verdict, env: Oracles) returns (added: bool)
    modifies store
    ensures (store.rows, added) == StoreVerdict(old(store.rows), e, verdict, env)
  {
    added := false;
    if verdict.Keep? {
      var known := store.FindByLink(verdict.link);
      if !known {
        added := store.TryInsert(env.digest(verdict.link), NewRow(e, verdict, env));
      }
    }
  }

  /** One more entry processes on from the table the earlier ones left. */
  lemma StoreEntriesStep(t: Table, es: seq<Entry>, j: nat, cfg: Config, env: Oracles, now: int)
    requires j < |es|
    ensures var prior := StoreEntries(t, es[..j], cfg, env, now);
      var last := StoreVerdict(prior.0, es[j], Screen(es[j], cfg, env, now), env);
      StoreEntries(t, es[..j + 1], cfg, env, now) == (last.0, prior.1 + if last.1 then 1 else 0)
  {
    assert es[..j + 1][..j] == es[..j];
  }
}
