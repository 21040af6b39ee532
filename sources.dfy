/** The source label shown next to every item in an outgoing message: an
    ordered table of (substring, label) pairs matched against the lower-cased
    link, first match wins, "Other" when nothing matches. */
module Sources {
  import opened Strings

  /** The table in its declared order (a Python dict keeps insertion order). */
  const SourceTable: seq<(string, string)> := [
    ("export.arxiv.org", "arXiv"),
    ("nature.com", "Nature Machine Intelligence"),
    ("openai.com", "OpenAI"),
    ("microsoft.com/en-us/research", "Microsoft Research"),
    ("aws.amazon.com/blogs/machine-learning", "AWS Machine Learning"),
    ("developer.nvidia.com", "NVIDIA Developer")
  ]

  const OtherLabel: string := "Other"

  /** Entry `i` of the table is the one a scan of `link` stops at. */
  predicate FirstHit(link: string, i: int)
  {
    0 <= i < |SourceTable|
    && Contains(Lower(link), SourceTable[i].0)
    && forall j :: 0 <= j < i ==> !Contains(Lower(link), SourceTable[j].0)
  }

  function FeedSource(link: string): string
  {
    LabelIn(SourceTable, Lower(link))
  }

  /** The scan of `table` against an already lower-cased link. */
  function LabelIn(table: seq<(string, string)>, lowered: string): string
  {
    if table == [] then OtherLabel
    else if Contains(lowered, table[0].0) then table[0].1
    else LabelIn(table[1..], lowered)
  }

  /** The scan stops at the first entry whose key occurs. */
  lemma {:induction false} LabelInFirstHit(table: seq<(string, string)>, lowered: string, i: nat)
    requires i < |table| && Contains(lowered, table[i].0)
    requires forall j :: 0 <= j < i ==> !Contains(lowered, table[j].0)
    ensures LabelIn(table, lowered) == table[i].1
  {
    if i > 0 {
      assert !Contains(lowered, table[0].0);
      var rest := table[1..];
      assert rest[i - 1] == table[i];
      assert forall j :: 0 <= j < i - 1 ==> rest[j] == table[j + 1];
      LabelInFirstHit(rest, lowered, i - 1);
    }
  }

  /** The scan of a table none of whose keys occurs gives "Other". */
  lemma {:induction false} LabelInNoHit(table: seq<(string, string)>, lowered: string)
    requires forall j :: 0 <= j < |table| ==> !Contains(lowered, table[j].0)
    ensures LabelIn(table, lowered) == OtherLabel
  {
    if table != [] {
      assert !Contains(lowered, table[0].0);
      var rest := table[1..];
      assert forall j :: 0 <= j < |rest| ==> rest[j] == table[j + 1];
      LabelInNoHit(rest, lowered);
    }
  }

  /** The label of a link is the label of the first entry whose key occurs
      in the lower-cased link, and "Other" when no key does. */
  lemma FeedSourceLabel(link: string)
    ensures forall i :: FirstHit(link, i) ==> FeedSource(link) == SourceTable[i].1
    ensures (forall i :: 0 <= i < |SourceTable| ==> !Contains(Lower(link), SourceTable[i].0))
            ==> FeedSource(link) == OtherLabel
  {
    forall i | FirstHit(link, i) ensures FeedSource(link) == SourceTable[i].1 {
      LabelInFirstHit(SourceTable, Lower(link), i);
    }
    if forall i :: 0 <= i < |SourceTable| ==> !Contains(Lower(link), SourceTable[i].0) {
      LabelInNoHit(SourceTable, Lower(link));
    }
  }

  /** Only the first matching key counts: a link that mentions both
      nature.com and openai.com is labelled by the earlier entry. */
  lemma {:induction false} EarlierEntryWins(link: string)
    requires Contains(Lower(link), "nature.com") && Contains(Lower(link), "openai.com")
    requires !Contains(Lower(link), "export.arxiv.org")
    ensures FeedSource(link) == "Nature Machine Intelligence"
  {
    FeedSourceLabel(link);
    assert FirstHit(link, 1);
  }
}
