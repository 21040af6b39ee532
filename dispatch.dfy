/** The batch dispatcher: the unsent rows are read, turned into articles,
    cut into batches of ten, and each batch is sent as one message (the
    rewritten one when it is usable, the plain-text one otherwise). A batch
    whose delivery succeeds has its links marked sent; a batch whose
    delivery fails stays unsent for the next run. The loop goes on with the
    next batch, except when the delivery of a rewritten message raises: the
    plain-text path catches that exception, the rewritten path does not,
    so it ends the whole dispatch and the later batches are not attempted.

    The rewriting service's reply for each batch, the delivery outcome of
    each batch and the statement (if any) at which marking a batch fails are
    parameters. */
module Dispatch {
  import opened Strings
  import opened Store
  import opened Sources
  import opened Batching
  import opened Messages
  import opened Reply

  /** What handing a message to delivery comes to: it went out, the
      sender reported failure, or the sender raised an exception (an
      unreadable retry setting, a notifier that cannot be added). */
  datatype Delivery = Delivered | Refused | Raised

  /** The article built from a stored row: the summary is the abstract, or
      the title when the abstract is empty; the source label comes from the
      link. */
  function ToArticle(row: Row): Article
  {
    Article(row.title, row.link, if row.summaryText != [] then row.summaryText else row.title,
      row.published, FeedSource(row.link))
  }

  function ArticlesOf(t: Table, ids: seq<string>): (arts: seq<Article>)
    requires forall i :: 0 <= i < |ids| ==> ids[i] in t
    ensures |arts| == |ids|
    ensures forall i :: 0 <= i < |ids| ==> arts[i] == ToArticle(t[ids[i]])
  {
    if ids == [] then []
    else
      var init := ids[..|ids| - 1];
      assert forall i :: 0 <= i < |init| ==> init[i] == ids[i];
      ArticlesOf(t, init) + [ToArticle(t[ids[|ids| - 1]])]
  }

  /** The links of a batch, in order. */
  function Links(batch: seq<Article>): seq<string>
  {
    seq(|batch|, i requires 0 <= i < |batch| => batch[i].link)
  }

  // ------------------------------------------------------------- messages

  /** The plain-text message of a batch, under some topic phrase of it. */
  ghost predicate IsFallback(msg: Message, batch: seq<Article>, n: nat, total: nat)
  {
    exists desc :: IsInfluence(KeyTopics(batch), desc)
      && msg == Message(FallbackSubject(desc, n, total), FallbackBody(batch, n, total))
  }

  /** What is sent for batch number `n`: when rewriting is configured and
      the service replied, the reply read as subject and body if both are
      non-empty; in every other case the plain-text message. */
  ghost predicate Composed(msg: Message, batch: seq<Article>, n: nat, total: nat, rewriting: bool, reply: Option<string>)
  {
    if rewriting && reply.Some? then
      exists desc :: IsInfluence(KeyTopics(batch), desc)
        && var split := SplitReply(reply.value, RewriteSubject(desc, n));
           if split.0 != [] && split.1 != [] then msg == Message(split.0, split.1)
           else IsFallback(msg, batch, n, total)
    else IsFallback(msg, batch, n, total)
  }

  /** Every message of `outbox` is the one composed for its batch of
      `arts`, the batches numbered from 1 out of `total`. */
  ghost predicate ComposedAll(outbox: seq<Message>, arts: seq<Article>, total: nat, rewriting: bool,
                              replies: nat -> Option<string>)
    requires |outbox| <= BatchCount(|arts|)
  {
    if outbox == [] then true
    else
      var k := |outbox| - 1;
      ComposedAll(outbox[..k], arts, total, rewriting, replies)
      && Composed(outbox[k], Batch(arts, k), k + 1, total, rewriting, replies(k))
  }

  lemma ComposedAllExtend(outbox: seq<Message>, msg: Message, arts: seq<Article>, total: nat, rewriting: bool,
                          replies: nat -> Option<string>)
    requires |outbox| < BatchCount(|arts|)
    requires ComposedAll(outbox, arts, total, rewriting, replies)
    requires Composed(msg, Batch(arts, |outbox|), |outbox| + 1, total, rewriting, replies(|outbox|))
    ensures ComposedAll(outbox + [msg], arts, total, rewriting, replies)
  {
    var next := outbox + [msg];
    assert next[..|outbox|] == outbox;
  }

  /** Reading `ComposedAll` at one position: message `k` is the one
      composed for batch `k`. */
  lemma {:induction false} ComposedAt(outbox: seq<Message>, arts: seq<Article>, total: nat, rewriting: bool,
                                      replies: nat -> Option<string>, k: nat)
    requires |outbox| <= BatchCount(|arts|)
    requires ComposedAll(outbox, arts, total, rewriting, replies)
    requires k < |outbox|
    ensures Composed(outbox[k], Batch(arts, k), k + 1, total, rewriting, replies(k))
  {
    var last := |outbox| - 1;
    if k == last {
      assert ComposedAll(outbox, arts, total, rewriting, replies);
    } else {
      ComposedAt(outbox[..last], arts, total, rewriting, replies, k);
      assert outbox[..last][k] == outbox[k];
    }
  }

  /** The rewritten message goes out for a batch: rewriting is configured,
      the service replied, and the reply is usable. */
  predicate Rewritten(rewriting: bool, reply: Option<string>)
  {
    rewriting && reply.Some? && Usable(reply.value)
  }

  /** The message for one batch, built as the dispatcher builds it, and
      whether it is the rewritten one. */
  method ComposeBatch(batch: seq<Article>, n: nat, total: nat, rewriting: bool, reply: Option<string>)
    returns (msg: Message, rewritten: bool)
    ensures Composed(msg, batch, n, total, rewriting, reply)
    ensures rewritten <==> Rewritten(rewriting, reply)
  {
    var subject, body := "", "";
    if rewriting && reply.Some? {
      var desc := Influence(batch);
      var split := SplitReply(reply.value, RewriteSubject(desc, n));
      UsableReply(reply.value, RewriteSubject(desc, n));
      subject, body := split.0, split.1;
    }
    rewritten := subject != [] && body != [];
    if rewritten {
      msg := Message(subject, body);
    } else {
      var fallbackDesc;
      msg, fallbackDesc := RenderFallback(batch, n, total);
    }
  }

  // ---------------------------------------------------------------- marking

  /** Batch `k` was delivered and its marking transaction went through. */
  predicate Confirmed(arts: seq<Article>, deliver: nat -> Delivery, markFault: nat -> Option<nat>, k: nat)
    requires k < BatchCount(|arts|)
  {
    deliver(k) == Delivered && !BatchAborts(markFault(k), |Batch(arts, k)|)
  }

  /** The links batch `k` has marked: all of them when it was confirmed,
      none otherwise. */
  function BatchMarks(arts: seq<Article>, deliver: nat -> Delivery, markFault: nat -> Option<nat>, k: nat): set<string>
    requires k < BatchCount(|arts|)
  {
    if Confirmed(arts, deliver, markFault, k) then LinkSet(Links(Batch(arts, k))) else {}
  }

  /** The links marked sent by the first `k` batches. */
  function ConfirmedLinks(arts: seq<Article>, deliver: nat -> Delivery, markFault: nat -> Option<nat>, k: nat): set<string>
    requires k <= BatchCount(|arts|)
  {
    if k == 0 then {}
    else ConfirmedLinks(arts, deliver, markFault, k - 1) + BatchMarks(arts, deliver, markFault, k - 1)
  }

  /** The links of batch `b` are those of the articles at positions in
      it. */
  lemma BatchLinks(arts: seq<Article>, b: nat)
    requires b < BatchCount(|arts|)
    ensures forall l :: l in LinkSet(Links(Batch(arts, b))) <==>
      exists j :: 0 <= j < |arts| && j / BatchSize == b && arts[j].link == l
  {
    var batch := Batch(arts, b);
    forall l | l in LinkSet(Links(batch))
      ensures exists j :: 0 <= j < |arts| && j / BatchSize == b && arts[j].link == l
    {
      var i :| 0 <= i < |batch| && Links(batch)[i] == l;
      var j := b * BatchSize + i;
      assert j / BatchSize == b;
      assert arts[j] == batch[i];
    }
    forall l | exists j :: 0 <= j < |arts| && j / BatchSize == b && arts[j].link == l
      ensures l in LinkSet(Links(batch))
    {
      var j :| 0 <= j < |arts| && j / BatchSize == b && arts[j].link == l;
      ItemInItsBatch(arts, j);
      assert Links(batch)[j % BatchSize] == l;
    }
  }

  /** A link is marked by the first `k` batches exactly when it is the link
      of an article at a position whose batch is one of them and was
      confirmed. */
  lemma {:induction false} ConfirmedLinksExactly(arts: seq<Article>, deliver: nat -> Delivery, markFault: nat -> Option<nat>, k: nat)
    requires k <= BatchCount(|arts|)
    ensures forall l :: l in ConfirmedLinks(arts, deliver, markFault, k) <==>
      exists j :: 0 <= j < |arts| && j / BatchSize < k && Confirmed(arts, deliver, markFault, j / BatchSize) && arts[j].link == l
  {
    if k > 0 {
      var b := k - 1;
      ConfirmedLinksExactly(arts, deliver, markFault, b);
      BatchLinks(arts, b);
      forall l | l in ConfirmedLinks(arts, deliver, markFault, k)
        ensures exists j :: 0 <= j < |arts| && j / BatchSize < k && Confirmed(arts, deliver, markFault, j / BatchSize) && arts[j].link == l
      {
        if l in BatchMarks(arts, deliver, markFault, b) {
          var j :| 0 <= j < |arts| && j / BatchSize == b && arts[j].link == l;
          assert Confirmed(arts, deliver, markFault, j / BatchSize);
        } else {
          assert l in ConfirmedLinks(arts, deliver, markFault, b);
          var j :| 0 <= j < |arts| && j / BatchSize < b && Confirmed(arts, deliver, markFault, j / BatchSize) && arts[j].link == l;
          assert j / BatchSize < k;
        }
      }
      forall l | exists j :: 0 <= j < |arts| && j / BatchSize < k && Confirmed(arts, deliver, markFault, j / BatchSize) && arts[j].link == l
        ensures l in ConfirmedLinks(arts, deliver, markFault, k)
      {
        var j :| 0 <= j < |arts| && j / BatchSize < k && Confirmed(arts, deliver, markFault, j / BatchSize) && arts[j].link == l;
        if j / BatchSize == b {
          assert l in BatchMarks(arts, deliver, markFault, b);
        } else {
          assert l in ConfirmedLinks(arts, deliver, markFault, b);
        }
      }
    }
  }

  /** The outcome the sent flags record: with the table keyed by link and
      the selection listing every unsent row once, after marking the links
      of the confirmed batches among the first `k` a selected row is sent
      exactly when its batch is one of them and was confirmed, and every
      other row keeps its flag. */
  lemma SentExactlyForConfirmedBatches(t: Table, idOf: string -> string, ids: seq<string>,
                                       deliver: nat -> Delivery, markFault: nat -> Option<nat>, k: nat)
    requires KeyedByLink(t, idOf)
    requires forall i, j :: 0 <= i < j < |ids| ==> ids[i] != ids[j]
    requires forall id :: id in ids <==> id in t && !t[id].sent
    requires k <= BatchCount(|ids|)
    ensures var arts := ArticlesOf(t, ids);
      var after := MarkLinks(t, ConfirmedLinks(arts, deliver, markFault, k));
      && (forall j :: 0 <= j < |ids| ==>
            (after[ids[j]].sent <==> j / BatchSize < k && Confirmed(arts, deliver, markFault, j / BatchSize)))
      && (forall id :: id in t && id !in ids ==> after[id].sent == t[id].sent)
  {
    var arts := ArticlesOf(t, ids);
    var links := ConfirmedLinks(arts, deliver, markFault, k);
    ConfirmedLinksExactly(arts, deliver, markFault, k);
    LinksAreUnique(t, idOf);
    forall j | 0 <= j < |ids| && t[ids[j]].link in links
      ensures j / BatchSize < k && Confirmed(arts, deliver, markFault, j / BatchSize)
    {
      var m :| 0 <= m < |arts| && m / BatchSize < k
        && Confirmed(arts, deliver, markFault, m / BatchSize) && arts[m].link == t[ids[j]].link;
      assert t[ids[m]].link == t[ids[j]].link;
      assert ids[m] == ids[j];
      assert m == j;
    }
    forall j | 0 <= j < |ids| && j / BatchSize < k && Confirmed(arts, deliver, markFault, j / BatchSize)
      ensures t[ids[j]].link in links
    {
      assert arts[j].link == t[ids[j]].link;
    }
  }

  // --------------------------------------------------------------- dispatch

  /** One more id loads one more article, at the end. */
  lemma ArticlesOfStep(t: Table, ids: seq<string>, i: nat)
    requires i < |ids|
    requires forall j :: 0 <= j < |ids| ==> ids[j] in t
    ensures ArticlesOf(t, ids[..i + 1]) == ArticlesOf(t, ids[..i]) + [ToArticle(t[ids[i]])]
  {
    assert ids[..i + 1][..i] == ids[..i];
    assert ids[..i + 1][i] == ids[i];
  }

  /** The articles of the selected rows, built one by one. */
  method LoadArticles(store: ItemStore, ids: seq<string>) returns (arts: seq<Article>)
    requires forall i :: 0 <= i < |ids| ==> ids[i] in store.rows
    ensures arts == ArticlesOf(store.rows, ids)
  {
    var rows := store.rows;
    arts := [];
    for i := 0 to |ids|
      invariant arts == ArticlesOf(rows, ids[..i])
    {
      ArticlesOfStep(rows, ids, i);
      arts := arts + [ToArticle(rows[ids[i]])];
    }
    assert ids[..|ids|] == ids;
  }

  /** Batch `k` ends the dispatch: its rewritten message was handed to
      the unguarded delivery call and that call raised. */
  predicate Halts(rewriting: bool, replies: nat -> Option<string>, deliver: nat -> Delivery, k: nat)
  {
    Rewritten(rewriting, replies(k)) && deliver(k) == Raised
  }

  /** `Halts` as a predicate on batch numbers. */
  function HaltsOf(rewriting: bool, replies: nat -> Option<string>, deliver: nat -> Delivery): nat -> bool
  {
    (k: nat) => Halts(rewriting, replies, deliver, k)
  }

  /** The first batch from `from` on that ends the dispatch, or `total`
      when none of them does. */
  function FirstHalt(total: nat, from: nat, halts: nat -> bool): (h: nat)
    requires from <= total
    ensures from <= h <= total
    ensures h < total ==> halts(h)
    ensures forall k :: from <= k < h ==> !halts(k)
    decreases total - from
  {
    if from == total then total
    else if halts(from) then from
    else FirstHalt(total, from + 1, halts)
  }

  /** How many of `total` batches are attempted: all of them, or those up
      to and including the first one that ends the dispatch. */
  function Attempted(total: nat, halts: nat -> bool): (n: nat)
    ensures n <= total
    ensures n < total ==> n > 0 && halts(n - 1)
    ensures forall k :: 0 <= k < n - 1 ==> !halts(k)
    ensures n == total || halts(n - 1)
  {
    var h := FirstHalt(total, 0, halts);
    if h < total then h + 1 else total
  }

  /** A batch no later than the first halt either is that halt, and then
      it is the last one attempted, or lies before it. */
  lemma HaltBoundary(total: nat, rewriting: bool, replies: nat -> Option<string>, deliver: nat -> Delivery, k: nat)
    requires k < total && k <= FirstHalt(total, 0, HaltsOf(rewriting, replies, deliver))
    ensures Halts(rewriting, replies, deliver, k) ==> Attempted(total, HaltsOf(rewriting, replies, deliver)) == k + 1
    ensures !Halts(rewriting, replies, deliver, k) ==> k + 1 <= FirstHalt(total, 0, HaltsOf(rewriting, replies, deliver))
  {
    assert HaltsOf(rewriting, replies, deliver)(k) == Halts(rewriting, replies, deliver, k);
  }

  /** The dispatcher: every unsent row is selected once, one message per
      batch of ten is composed and handed to delivery until a rewritten
      message's delivery raises, and the links of the batches whose
      delivery succeeded are marked sent (each batch all or nothing). */
  method DispatchPending(store: ItemStore, rewriting: bool, replies: nat -> Option<string>,
                         deliver: nat -> Delivery, markFault: nat -> Option<nat>)
    returns (ids: seq<string>, outbox: seq<Message>)
    modifies store
    ensures forall i, j :: 0 <= i < j < |ids| ==> ids[i] != ids[j]
    ensures forall id :: id in ids <==> id in old(store.rows) && !old(store.rows)[id].sent
    ensures |outbox| == Attempted(BatchCount(|ids|), HaltsOf(rewriting, replies, deliver))
    ensures ComposedAll(outbox, ArticlesOf(old(store.rows), ids), BatchCount(|ids|), rewriting, replies)
    ensures store.rows == MarkLinks(old(store.rows),
      ConfirmedLinks(ArticlesOf(old(store.rows), ids), deliver, markFault, |outbox|))
  {
    ids := store.UnsentIds();
    var arts := LoadArticles(store, ids);
    if |arts| == 0 {
      outbox := [];
      MarkNothing(store.rows);
      return;
    }
    outbox := SendAll(store, arts, rewriting, replies, deliver, markFault);
  }

  /** The batch loop: batch `k` is composed, delivered, and marked when its
      delivery succeeded; the loop goes on with the next batch unless the
      batch ends the dispatch. */
  method SendAll(store: ItemStore, arts: seq<Article>, rewriting: bool, replies: nat -> Option<string>,
                 deliver: nat -> Delivery, markFault: nat -> Option<nat>)
    returns (outbox: seq<Message>)
    modifies store
    ensures |outbox| == Attempted(BatchCount(|arts|), HaltsOf(rewriting, replies, deliver))
    ensures ComposedAll(outbox, arts, BatchCount(|arts|), rewriting, replies)
    ensures store.rows == MarkLinks(old(store.rows), ConfirmedLinks(arts, deliver, markFault, |outbox|))
  {
    outbox := [];
    var total := BatchCount(|arts|);
    ghost var h := FirstHalt(total, 0, HaltsOf(rewriting, replies, deliver));
    MarkNothing(store.rows);
    var k := 0;
    while k < total
      invariant k <= total && k <= h
      invariant |outbox| == k
      invariant ComposedAll(outbox, arts, total, rewriting, replies)
      invariant store.rows == MarkLinks(old(store.rows), ConfirmedLinks(arts, deliver, markFault, k))
    {
      var halted;
      outbox, halted := SendBatch(store, arts, k, rewriting, replies, deliver, markFault, old(store.rows), outbox);
      HaltBoundary(total, rewriting, replies, deliver, k);
      if halted {
        return;
      }
      k := k + 1;
    }
  }

  /** Marking batch `k` after the first `k` batches is marking the first
      `k + 1`. */
  lemma ConfirmedLinksStep(t: Table, arts: seq<Article>, deliver: nat -> Delivery, markFault: nat -> Option<nat>, k: nat)
    requires k < BatchCount(|arts|)
    ensures MarkLinks(MarkLinks(t, ConfirmedLinks(arts, deliver, markFault, k)), BatchMarks(arts, deliver, markFault, k))
      == MarkLinks(t, ConfirmedLinks(arts, deliver, markFault, k + 1))
  {
    MarkLinksCompose(t, ConfirmedLinks(arts, deliver, markFault, k), BatchMarks(arts, deliver, markFault, k));
  }

  /** The sending half of one batch: its message is composed and handed
      to delivery. `delivered` is the success the dispatcher goes on with
      and `halted` tells whether the batch ends the dispatch. Given the
      messages of the first `k` batches, the message joins them. */
  method DeliverBatch(arts: seq<Article>, k: nat, rewriting: bool, replies: nat -> Option<string>,
                      deliver: nat -> Delivery, ghost sent: seq<Message>)
    returns (msg: Message, delivered: bool, halted: bool)
    requires k < BatchCount(|arts|) && |sent| == k
    requires ComposedAll(sent, arts, BatchCount(|arts|), rewriting, replies)
    ensures ComposedAll(sent + [msg], arts, BatchCount(|arts|), rewriting, replies)
    ensures delivered <==> deliver(k) == Delivered
    ensures halted <==> Halts(rewriting, replies, deliver, k)
  {
    var rewritten;
    msg, rewritten := ComposeBatch(Batch(arts, k), k + 1, BatchCount(|arts|), rewriting, replies(k));
    ComposedAllExtend(sent, msg, arts, BatchCount(|arts|), rewriting, replies);
    var outcome := deliver(k);
    delivered := outcome == Delivered;
    halted := rewritten && outcome == Raised;
  }

  /** One batch: it is sent, and when delivery succeeded its links are
      marked sent in one transaction. Given the messages of the first `k`
      batches and the table they left, the message joins them and the
      table is the one the first `k + 1` batches leave. */
  method SendBatch(store: ItemStore, arts: seq<Article>, k: nat, rewriting: bool, replies: nat -> Option<string>,
                   deliver: nat -> Delivery, markFault: nat -> Option<nat>,
                   ghost initial: Table, sent: seq<Message>)
    returns (outbox: seq<Message>, halted: bool)
    requires k < BatchCount(|arts|) && |sent| == k
    requires ComposedAll(sent, arts, BatchCount(|arts|), rewriting, replies)
    requires store.rows == MarkLinks(initial, ConfirmedLinks(arts, deliver, markFault, k))
    modifies store
    ensures |outbox| == k + 1 && outbox[..k] == sent
    ensures ComposedAll(outbox, arts, BatchCount(|arts|), rewriting, replies)
    ensures halted <==> Halts(rewriting, replies, deliver, k)
    ensures store.rows == MarkLinks(initial, ConfirmedLinks(arts, deliver, markFault, k + 1))
  {
    var msg, delivered;
    msg, delivered, halted := DeliverBatch(arts, k, rewriting, replies, deliver, sent);
    outbox := sent + [msg];
    assert outbox[..k] == sent;
    ConfirmedLinksStep(initial, arts, deliver, markFault, k);
    MarkNothing(store.rows);
    if delivered {
      store.MarkBatchAsSent(Links(Batch(arts, k)), markFault(k));
    }
  }
}
