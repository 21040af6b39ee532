/** The plain-text batch message that is sent when no rewritten message is
    available: a subject naming the batch's most frequent research topic,
    and a body listing every article of the batch, numbered from 1. */
module Messages {
  import opened Strings

  /** An article as the dispatcher hands it on: title, link, summary (the
      stored abstract, or the title when there is none), publish time as
      stored, and source label. */
  datatype Article = Article(title: string, link: string, summary: string, published: string, source: string)

  datatype Message = Message(subject: string, body: string)

  // ---------------------------------------------------------------- topics

  /** The topic categories in the order they are tried: the substrings that
      identify each one and its name. */
  const TopicTable: seq<(seq<string>, string)> := [
    (["gpt", "llm", "大模型", "transformer"], "大语言模型"),
    (["computer vision", "cv", "计算机视觉", "image"], "计算机视觉"),
    (["machine learning", "ml", "机器学习"], "机器学习"),
    (["deep learning", "dl", "深度学习"], "深度学习"),
    (["ai", "artificial intelligence", "人工智能"], "人工智能")
  ]

  /** The topic phrase used when no article of the batch has a topic. */
  const NoTopicInfluence: string := "前沿技术进展"

  const BreakthroughSuffix: string := "重大突破"

  /** The text searched for topic substrings: title, a blank, summary,
      lower-cased. */
  function TopicText(a: Article): string
  {
    Lower(a.title + " " + a.summary)
  }

  /** Category `i` is the first whose substrings occur in the article. */
  predicate TopicHit(a: Article, i: int)
  {
    0 <= i < |TopicTable|
    && ContainsAny(TopicText(a), TopicTable[i].0)
    && forall j :: 0 <= j < i ==> !ContainsAny(TopicText(a), TopicTable[j].0)
  }

  /** The article's topic: the first category that applies, if any. */
  function TopicOf(a: Article): (topic: Option<string>)
    ensures forall i :: TopicHit(a, i) ==> topic == Some(TopicTable[i].1)
    ensures (forall i :: 0 <= i < |TopicTable| ==> !ContainsAny(TopicText(a), TopicTable[i].0)) ==> topic.None?
  {
    var hit := FirstIndex(TopicTable, (entry: (seq<string>, string)) => ContainsAny(TopicText(a), entry.0));
    if hit.Some? then
      assert TopicHit(a, hit.value);
      Some(TopicTable[hit.value].1)
    else None
  }

  /** The values `f` gives to the elements of `xs`, skipping those it
      gives none to, in order. */
  function Tally<A>(xs: seq<A>, f: A -> Option<string>): (ys: seq<string>)
    ensures |ys| <= |xs|
    decreases |xs|
  {
    if xs == [] then []
    else
      var y := f(xs[|xs| - 1]);
      Tally(xs[..|xs| - 1], f) + (if y.Some? then [y.value] else [])
  }

  /** A tally is empty exactly when `f` gives no element a value. */
  lemma {:induction false} TallyEmpty<A>(xs: seq<A>, f: A -> Option<string>)
    ensures Tally(xs, f) == [] <==> forall i :: 0 <= i < |xs| ==> f(xs[i]).None?
    decreases |xs|
  {
    if xs != [] {
      var init := xs[..|xs| - 1];
      TallyEmpty(init, f);
      if Tally(xs, f) == [] {
        forall i | 0 <= i < |init| ensures f(init[i]).None? {
          assert init[i] == xs[i];
        }
      }
    }
  }

  /** Each entry of a tally is the value of some element. */
  lemma {:induction false} TallyFrom<A>(xs: seq<A>, f: A -> Option<string>)
    ensures forall y :: y in Tally(xs, f) ==> exists i :: 0 <= i < |xs| && f(xs[i]) == Some(y)
    decreases |xs|
  {
    if xs != [] {
      var init := xs[..|xs| - 1];
      TallyFrom(init, f);
      forall y | y in Tally(xs, f) ensures exists i :: 0 <= i < |xs| && f(xs[i]) == Some(y) {
        if y in Tally(init, f) {
          var i :| 0 <= i < |init| && f(init[i]) == Some(y);
          assert xs[i] == init[i];
        } else {
          assert f(xs[|xs| - 1]) == Some(y);
        }
      }
    }
  }

  /** Position `i` of `xs` holds an element `f` maps to `y`. */
  predicate MapsTo<A>(xs: seq<A>, f: A -> Option<string>, y: string, i: int)
  {
    0 <= i < |xs| && f(xs[i]) == Some(y)
  }

  /** How many elements of `xs` `f` maps to `y`. */
  ghost function CountOf<A>(xs: seq<A>, f: A -> Option<string>, y: string): nat
  {
    |set i | 0 <= i < |xs| && MapsTo(xs, f, y, i)|
  }

  /** Counting over one more element adds one when it maps to `y`. */
  lemma CountOfStep<A>(xs: seq<A>, f: A -> Option<string>, y: string)
    requires xs != []
    ensures CountOf(xs, f, y)
      == CountOf(xs[..|xs| - 1], f, y) + (if f(xs[|xs| - 1]) == Some(y) then 1 else 0)
  {
    var n := |xs| - 1;
    var init := xs[..n];
    var after := set i | 0 <= i < |xs| && MapsTo(xs, f, y, i);
    var before := set i | 0 <= i < |init| && MapsTo(init, f, y, i);
    forall i | 0 <= i < n ensures xs[i] == init[i] {
    }
    if f(xs[n]) == Some(y) {
      assert after == before + {n};
    } else {
      assert after == before;
    }
  }

  /** A tally holds each value exactly as often as `f` gives it out. */
  lemma {:induction false} TallyCounts<A>(xs: seq<A>, f: A -> Option<string>, y: string)
    ensures multiset(Tally(xs, f))[y] == CountOf(xs, f, y)
    decreases |xs|
  {
    if xs == [] {
      assert (set i | 0 <= i < |xs| && MapsTo(xs, f, y, i)) == {};
    } else {
      var init := xs[..|xs| - 1];
      var last := f(xs[|xs| - 1]);
      TallyCounts(init, f, y);
      CountOfStep(xs, f, y);
      assert Tally(xs, f) == Tally(init, f) + (if last.Some? then [last.value] else []);
    }
  }

  /** `key_topics`: the topic of every article that has one, in batch
      order. */
  function KeyTopics(batch: seq<Article>): seq<string>
  {
    Tally(batch, TopicOf)
  }

  /** The tally loop: one pass over the batch appending topics. */
  method CollectTopics(batch: seq<Article>) returns (topics: seq<string>)
    ensures topics == KeyTopics(batch)
  {
    topics := [];
    for i := 0 to |batch|
      invariant topics == Tally(batch[..i], TopicOf)
    {
      assert batch[..i + 1][..i] == batch[..i];
      var topic := TopicOf(batch[i]);
      if topic.Some? {
        topics := topics + [topic.value];
      }
    }
    assert batch[..|batch|] == batch;
  }

  /** `m` occurs in the tally at least as often as any other topic. */
  ghost predicate MostCommon(topics: seq<string>, m: string)
  {
    m in topics && forall t :: t in topics ==> multiset(topics)[t] <= multiset(topics)[m]
  }

  /** `max(set(topics), key=topics.count)`: the distinct topics are visited
      in an order this model leaves open and the first one with the highest
      count is kept. */
  method PickMostCommon(topics: seq<string>) returns (m: string)
    requires topics != []
    ensures MostCommon(topics, m)
  {
    var pending := set t | t in topics;
    assert topics[0] in pending;
    m :| m in pending;
    pending := pending - {m};
    while pending != {}
      invariant m in topics
      invariant forall t :: t in topics && t !in pending ==> multiset(topics)[t] <= multiset(topics)[m]
      decreases pending
    {
      var t :| t in pending;
      if multiset(topics)[t] > multiset(topics)[m] {
        m := t;
      }
      pending := pending - {t};
    }
  }

  /** `influence_desc`: the most frequent topic followed by "重大突破", or
      the fixed phrase when the tally is empty. */
  ghost predicate IsInfluence(topics: seq<string>, desc: string)
  {
    if topics == [] then desc == NoTopicInfluence
    else exists m :: MostCommon(topics, m) && desc == m + BreakthroughSuffix
  }

  /** The topic phrase of a batch, as both message builders compute it. */
  method Influence(batch: seq<Article>) returns (desc: string)
    ensures IsInfluence(KeyTopics(batch), desc)
  {
    var topics := CollectTopics(batch);
    if topics != [] {
      var m := PickMostCommon(topics);
      desc := m + BreakthroughSuffix;
    } else {
      desc := NoTopicInfluence;
    }
  }

  /** The topic phrase of a batch with topics names a topic that at least
      one article has and that no other topic outnumbers. */
  lemma InfluenceNamesMostFrequentTopic(batch: seq<Article>, desc: string)
    requires KeyTopics(batch) != [] && IsInfluence(KeyTopics(batch), desc)
    ensures exists m :: desc == m + BreakthroughSuffix && CountOf(batch, TopicOf, m) >= 1
                        && forall t :: CountOf(batch, TopicOf, t) <= CountOf(batch, TopicOf, m)
  {
    var topics := KeyTopics(batch);
    var m :| MostCommon(topics, m) && desc == m + BreakthroughSuffix;
    TallyCounts(batch, TopicOf, m);
    forall t ensures CountOf(batch, TopicOf, t) <= CountOf(batch, TopicOf, m) {
      TallyCounts(batch, TopicOf, t);
    }
  }

  /** A batch none of whose articles falls in a category is described by
      the fixed phrase. */
  lemma NoTopicMeansDefaultInfluence(batch: seq<Article>, desc: string)
    requires forall i :: 0 <= i < |batch| ==> TopicOf(batch[i]).None?
    requires IsInfluence(KeyTopics(batch), desc)
    ensures desc == NoTopicInfluence
  {
    TallyEmpty(batch, TopicOf);
  }

  /** A topic phrase never ends in a closing bracket: it ends in the last
      character of "重大突破" or of the fixed phrase. */
  lemma InfluenceEnding(topics: seq<string>, desc: string)
    requires IsInfluence(topics, desc)
    ensures desc != [] && (desc[|desc| - 1] == '破' || desc[|desc| - 1] == '展')
  {
    if topics != [] {
      var m :| MostCommon(topics, m) && desc == m + BreakthroughSuffix;
      assert desc[|desc| - 1] == BreakthroughSuffix[|BreakthroughSuffix| - 1];
    }
  }

  // ------------------------------------------------------------- rendering

  /** "（第n批）", the batch tag of a subject. */
  function BatchTag(n: nat): string
  {
    "（第" + NatToString(n) + "批）"
  }

  /** The subject of the plain-text message: the topic phrase, and the
      batch tag only when there is more than one batch. */
  function FallbackSubject(desc: string, n: nat, total: nat): string
  {
    "AI前沿+" + desc + (if total > 1 then BatchTag(n) else "")
  }

  /** The subject used when a rewritten reply has no separator line: it
      always carries the batch tag. */
  function RewriteSubject(desc: string, n: nat): string
  {
    "AI前沿+" + desc + BatchTag(n)
  }

  function Header(n: nat, total: nat, count: nat): string
  {
    "# AI领域最新文章汇总（第" + NatToString(n) + "批，共" + NatToString(total) + "批）\n\n"
    + "本批次共收录 " + NatToString(count) + " 篇重要文章：\n\n"
  }

  /** The pieces of the block listing article number `i`. */
  function ItemParts(i: nat, a: Article): seq<string>
  {
    ["## ", NatToString(i), ". ", a.title,
     "\n**来源**: ", a.source,
     "\n**发布时间**: ", a.published,
     "\n**摘要**: ", a.summary,
     "\n**链接**: [阅读全文](", a.link, ")\n\n"]
  }

  function ItemBlock(i: nat, a: Article): string
  {
    Join(ItemParts(i, a))
  }

  /** The blocks of the articles of `batch`, numbered 1 to `|batch|`. */
  function Blocks(batch: seq<Article>): seq<string>
  {
    seq(|batch|, i requires 0 <= i < |batch| => ItemBlock(i + 1, batch[i]))
  }

  /** The closing note naming the batch. */
  function Trailer(n: nat, total: nat): string
  {
    "\n---\n本次为第" + NatToString(n) + "批推送，共" + NatToString(total) + "批。"
  }

  function FallbackBody(batch: seq<Article>, n: nat, total: nat): string
  {
    Header(n, total, |batch|) + Join(Blocks(batch)) + (if total > 1 then Trailer(n, total) else "")
  }

  /** `send_traditional_batch_limited` up to the delivery call: the topic
      tally and the subject, then the body. */
  method RenderFallback(batch: seq<Article>, n: nat, total: nat) returns (msg: Message, desc: string)
    ensures IsInfluence(KeyTopics(batch), desc)
    ensures msg == Message(FallbackSubject(desc, n, total), FallbackBody(batch, n, total))
  {
    var subject;
    subject, desc := RenderSubject(batch, n, total);
    var body := RenderBody(batch, n, total);
    msg := Message(subject, body);
  }

  /** The subject: the topic phrase, then the batch tag when there are
      several batches. */
  method RenderSubject(batch: seq<Article>, n: nat, total: nat) returns (subject: string, desc: string)
    ensures IsInfluence(KeyTopics(batch), desc)
    ensures subject == FallbackSubject(desc, n, total)
  {
    desc := Influence(batch);
    subject := "AI前沿+" + desc;
    if total > 1 {
      subject := subject + BatchTag(n);
    }
  }

  /** The body, built by appending one block per article to the header and
      the note when there are several batches. */
  method RenderBody(batch: seq<Article>, n: nat, total: nat) returns (body: string)
    ensures body == FallbackBody(batch, n, total)
  {
    body := Header(n, total, |batch|);
    ghost var blocks := Blocks(batch);
    for i := 0 to |batch|
      invariant body == Header(n, total, |batch|) + Join(blocks[..i])
    {
      assert blocks[..i + 1][..i] == blocks[..i];
      body := body + ItemBlock(i + 1, batch[i]);
    }
    assert blocks[..|batch|] == blocks;
    if total > 1 {
      body := body + Trailer(n, total);
    }
  }

  // ------------------------------------------------------------ properties

  predicate EndsWith(s: string, suffix: string)
  {
    |suffix| <= |s| && s[|s| - |suffix|..] == suffix
  }

  /** No article is dropped and the order is kept: the body starts with the
      header, the blocks of articles 1 to `i` and then the block of article
      `i + 1`, for every article of the batch. */
  lemma FallbackListsEveryArticle(batch: seq<Article>, n: nat, total: nat, i: nat)
    requires i < |batch|
    ensures Header(n, total, |batch|) + Join(Blocks(batch)[..i]) + ItemBlock(i + 1, batch[i]) <= FallbackBody(batch, n, total)
  {
    var bs := Blocks(batch);
    JoinedPartInContext(Header(n, total, |batch|), bs, i, if total > 1 then Trailer(n, total) else "");
  }

  /** A block shows the article's number and title at its start, then its
      source, publish time, summary and link. */
  lemma ItemBlockShowsArticle(i: nat, a: Article)
    ensures "## " + NatToString(i) + ". " + a.title <= ItemBlock(i, a)
    ensures Contains(ItemBlock(i, a), a.source)
    ensures Contains(ItemBlock(i, a), a.published)
    ensures Contains(ItemBlock(i, a), a.summary)
    ensures Contains(ItemBlock(i, a), a.link)
  {
    var ps := ItemParts(i, a);
    JoinShowsPart(ps, 3);
    assert ps[..3] == ["## ", NatToString(i), ". "];
    JoinThree("## ", NatToString(i), ". ");
    JoinShowsPart(ps, 5);
    JoinShowsPart(ps, 7);
    JoinShowsPart(ps, 9);
    JoinShowsPart(ps, 11);
  }

  /** The subject carries the batch tag exactly when there is more than one
      batch. */
  lemma BatchTagOnlyWhenSeveral(topics: seq<string>, desc: string, n: nat, total: nat)
    requires IsInfluence(topics, desc)
    ensures EndsWith(FallbackSubject(desc, n, total), BatchTag(n)) <==> total > 1
  {
    InfluenceEnding(topics, desc);
    var s, tag := FallbackSubject(desc, n, total), BatchTag(n);
    if total <= 1 {
      assert s[|s| - 1] == desc[|desc| - 1];
      assert tag[|tag| - 1] == '）';
    } else {
      assert s == "AI前沿+" + desc + tag;
    }
  }

  /** The body ends with the batch note exactly when there is more than one
      batch. */
  lemma BatchNoteOnlyWhenSeveral(batch: seq<Article>, n: nat, total: nat)
    ensures EndsWith(FallbackBody(batch, n, total), Trailer(n, total)) <==> total > 1
  {
    var b := FallbackBody(batch, n, total);
    var t := Trailer(n, total);
    if total <= 1 {
      assert b[|b| - 1] == '\n' by {
        var bs := Blocks(batch);
        if batch == [] {
          assert b == Header(n, total, 0);
        } else {
          var ps := ItemParts(|batch|, batch[|batch| - 1]);
          assert Join(ps) == Join(ps[..12]) + ")\n\n";
          assert b == Header(n, total, |batch|) + Join(bs[..|bs| - 1]) + Join(ps);
        }
      }
      assert t[|t| - 1] == '。';
    }
  }
}
