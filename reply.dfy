/** The reading of a rewritten batch message: the model is asked to put
    the subject on the first line and the body after a `---` line. The
    reply is trimmed and cut at its first `---`; a reply without one
    becomes the body under a default subject. */
module Reply {
  import opened Strings

  const Separator: string := "---"

  /** Index of the first separator in `s`, when there is one. */
  function SeparatorAt(s: string): (r: Option<nat>)
    ensures r.Some? ==> OccursAt(s, Separator, r.value)
    ensures r.Some? ==> forall j :: 0 <= j < r.value ==> !OccursAt(s, Separator, j)
    ensures r.None? <==> !Contains(s, Separator)
  {
    IndexOf(s, Separator)
  }

  /** (subject, body) read from a reply. */
  function SplitReply(content: string, defaultSubject: string): (r: (string, string))
    ensures var s := Strip(content);
      Contains(s, Separator) ==> Trimmed(r.0) && Trimmed(r.1) && !Contains(r.0, Separator)
    ensures var s := Strip(content);
      Contains(s, Separator) ==> r == CutAt(s, SeparatorAt(s).value)
    ensures var s := Strip(content);
      !Contains(s, Separator) ==> r == (defaultSubject, s)
  {
    SplitTrimmed(Strip(content), defaultSubject)
  }

  /** A reply the dispatcher sends as written: once trimmed it is not
      empty, and its first separator, if any, is neither at its very start
      nor at its very end. */
  predicate Usable(content: string)
  {
    var s := Strip(content);
    s != [] && (Contains(s, Separator) ==> 0 < SeparatorAt(s).value && SeparatorAt(s).value + |Separator| < |s|)
  }

  /** A usable reply is exactly one that reads as a non-empty subject and
      a non-empty body, whatever non-empty default subject is supplied. */
  lemma UsableReply(content: string, defaultSubject: string)
    requires defaultSubject != []
    ensures Usable(content) <==> SplitReply(content, defaultSubject).0 != [] && SplitReply(content, defaultSubject).1 != []
  {
    var s := Strip(content);
    if Contains(s, Separator) {
      var i := SeparatorAt(s).value;
      var j := i + |Separator|;
      assert Strip(s[..i]) != [] <==> 0 < i by {
        StripEmpty(s[..i]);
        if i > 0 {
          assert s[..i][0] == s[0];
        }
      }
      assert Strip(s[j..]) != [] <==> j < |s| by {
        StripEmpty(s[j..]);
        if j < |s| {
          assert s[j..][|s| - j - 1] == s[|s| - 1];
        }
      }
    }
  }

  /** The cut of a trimmed reply at its first separator. */
  function SplitTrimmed(s: string, defaultSubject: string): (r: (string, string))
    ensures Contains(s, Separator) ==> Trimmed(r.0) && Trimmed(r.1) && !Contains(r.0, Separator)
    ensures Contains(s, Separator) ==> r == CutAt(s, SeparatorAt(s).value)
    ensures !Contains(s, Separator) ==> r == (defaultSubject, s)
  {
    var at := SeparatorAt(s);
    if at.Some? then
      FirstSeparatorLeavesNoneBefore(s, at.value);
      CutAt(s, at.value)
    else (defaultSubject, s)
  }

  /** The two trimmed sides of the separator at `i`. */
  function CutAt(s: string, i: nat): (string, string)
    requires i + |Separator| <= |s|
  {
    (Strip(s[..i]), Strip(s[i + |Separator|..]))
  }

  /** The text before the first separator, trimmed, holds no separator. */
  lemma FirstSeparatorLeavesNoneBefore(s: string, i: nat)
    requires i <= |s|
    requires forall j :: 0 <= j < i ==> !OccursAt(s, Separator, j)
    ensures !Contains(Strip(s[..i]), Separator)
  {
    var head := s[..i];
    var a := StripOffset(head);
    var b := a + |Strip(head)|;
    SliceOfPrefix(s, i, a, b);
    NoneInside(s, Separator, i, a, b, Strip(head));
  }

  /** A well-formed reply is read back as written: a trimmed subject with no
      separator in it and not ending in '-', the separator, and a trimmed
      body give back that subject and body. */
  lemma {:induction false} SplitReplyRoundTrip(subject: string, body: string, defaultSubject: string)
    requires Trimmed(subject) && Trimmed(body)
    requires !Contains(subject, Separator)
    requires subject == [] || subject[|subject| - 1] != '-'
    ensures SplitReply(subject + Separator + body, defaultSubject) == (subject, body)
  {
    var s := subject + Separator + body;
    var n := |subject|;
    JoinedReplyTrimmed(subject, body);
    SeparatorAfterSubject(subject, body);
    SplitAtFirst(s, defaultSubject, n);
    JoinedReplyParts(subject, body);
  }

  lemma JoinedReplyParts(subject: string, body: string)
    ensures (subject + Separator + body)[..|subject|] == subject
    ensures (subject + Separator + body)[|subject| + |Separator|..] == body
  {
    var s := subject + Separator + body;
    assert s[..|subject|] == subject;
    assert s[|subject| + |Separator|..] == body;
  }

  /** A reply whose first separator is at `n` is cut there. */
  lemma SplitAtFirst(s: string, defaultSubject: string, n: nat)
    requires SeparatorAt(s) == Some(n)
    ensures n + |Separator| <= |s|
    ensures SplitTrimmed(s, defaultSubject) == CutAt(s, n)
  {
  }

  lemma JoinedReplyTrimmed(subject: string, body: string)
    requires Trimmed(subject) && Trimmed(body)
    ensures Strip(subject + Separator + body) == subject + Separator + body
  {
    var s := subject + Separator + body;
    if subject == [] {
      assert s[0] == '-';
    } else {
      assert s[0] == subject[0];
    }
    if body == [] {
      assert s[|s| - 1] == '-';
    } else {
      assert s[|s| - 1] == body[|body| - 1];
    }
  }

  /** The first separator of the joined reply is the one after the
      subject. */
  lemma SeparatorAfterSubject(subject: string, body: string)
    requires !Contains(subject, Separator)
    requires subject == [] || subject[|subject| - 1] != '-'
    ensures SeparatorAt(subject + Separator + body) == Some(|subject|)
  {
    var s := subject + Separator + body;
    var n := |subject|;
    assert s[n..n + 3] == Separator;
    assert OccursAt(s, Separator, n);
    forall j | 0 <= j < n ensures !OccursAt(s, Separator, j) {
      if j + 3 <= n {
        assert s[j..j + 3] == subject[j..j + 3];
        assert !OccursAt(subject, Separator, j);
      } else {
        assert s[n - 1] == subject[n - 1];
        assert s[j..j + 3][n - 1 - j] != '-';
      }
    }
    var r := SeparatorAt(s);
    assert r.Some?;
    assert r.value <= n;
    assert r.value >= n;
  }
}
