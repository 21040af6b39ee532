/** Helpers shared by the whole pipeline: an optional value, the ordered
    first-match scan that both the source-label table and the topic table
    use, and the Python string operations the pipeline relies on
    (`str.lower`, `in`, `str.strip`, the two `re.sub` clean-ups of an
    abstract, and `str(int)`). */
module Strings {

  datatype Option<T> = None | Some(value: T)

  /** Index of the first element of `xs` satisfying `p`: a Python `for` loop
      over an ordered table that returns on its first hit. */
  function FirstIndex<T>(xs: seq<T>, p: T -> bool): (r: Option<nat>)
    ensures r.Some? ==> r.value < |xs| && p(xs[r.value])
    ensures r.Some? ==> forall j :: 0 <= j < r.value ==> !p(xs[j])
    ensures r.None? ==> forall j :: 0 <= j < |xs| ==> !p(xs[j])
  {
    if xs == [] then None
    else if p(xs[0]) then Some(0)
    else
      var rest := FirstIndex(xs[1..], p);
      if rest.None? then None else Some(rest.value + 1)
  }

  // ---------------------------------------------------------------- case

  /** `str.lower()` on one character, restricted to ASCII letters. */
  function LowerChar(c: char): char
  {
    if 'A' <= c <= 'Z' then (c as int - 'A' as int + 'a' as int) as char else c
  }

  function Lower(s: string): (r: string)
    ensures |r| == |s|
    ensures forall i :: 0 <= i < |s| ==> r[i] == LowerChar(s[i])
  {
    if s == [] then [] else [LowerChar(s[0])] + Lower(s[1..])
  }

  // ----------------------------------------------------------- substrings

  /** `k` occurs in `s` starting at index `i`. */
  predicate OccursAt(s: string, k: string, i: int)
  {
    0 <= i && i + |k| <= |s| && s[i..i + |k|] == k
  }

  /** `s.find(k, from)`: the leftmost occurrence of `k` at or after `from`. */
  function IndexOfFrom(s: string, k: string, from: nat): (r: Option<nat>)
    requires from <= |s|
    ensures r.Some? ==> from <= r.value && OccursAt(s, k, r.value)
    ensures r.Some? ==> forall j :: from <= j < r.value ==> !OccursAt(s, k, j)
    ensures r.None? ==> forall j :: from <= j ==> !OccursAt(s, k, j)
    decreases |s| - from
  {
    if OccursAt(s, k, from) then Some(from)
    else if from == |s| then None
    else IndexOfFrom(s, k, from + 1)
  }

  function IndexOf(s: string, k: string): Option<nat>
  {
    IndexOfFrom(s, k, 0)
  }

  /** An occurrence inside a slice is an occurrence in the whole string. */
  lemma OccursInSlice(s: string, k: string, a: nat, b: nat, p: nat)
    requires a <= b <= |s| && OccursAt(s[a..b], k, p)
    ensures OccursAt(s, k, a + p)
  {
    forall m | 0 <= m < |k| ensures s[a + p..a + p + |k|][m] == k[m] {
      assert s[a..b][p..p + |k|][m] == k[m];
      assert s[a..b][p + m] == s[a + p + m];
    }
  }

  /** A slice that ends by `i` holds no occurrence of a non-empty `k` when
      `s` has none starting before `i`. */
  lemma NoneInside(s: string, k: string, i: nat, a: nat, b: nat, t: string)
    requires |k| > 0 && a <= b <= i <= |s| && t == s[a..b]
    requires forall j :: 0 <= j < i ==> !OccursAt(s, k, j)
    ensures !Contains(t, k)
  {
    forall p | OccursAt(s[a..b], k, p) ensures false {
      OccursInSlice(s, k, a, b, p);
    }
  }

  lemma SliceOfSuffix<T>(s: seq<T>, a: nat, n: nat)
    requires a + n <= |s|
    ensures s[a..][..n] == s[a..a + n]
  {
  }

  lemma SliceOfPrefix(s: string, i: nat, a: nat, b: nat)
    requires a <= b <= i <= |s|
    ensures s[..i][a..b] == s[a..b]
  {
  }

  /** Python's `k in s`. */
  function Contains(s: string, k: string): (b: bool)
    ensures b <==> exists i :: OccursAt(s, k, i)
  {
    IndexOf(s, k).Some?
  }

  /** Python's `any(k in s for k in ks)`. */
  predicate ContainsAny(s: string, ks: seq<string>)
  {
    exists i :: 0 <= i < |ks| && Contains(s, ks[i])
  }

  // ----------------------------------------------------------- whitespace

  /** The characters for which Python's `str.isspace()` holds; the same set
      is matched by `\s` in a `str` regular expression. */
  predicate IsSpace(c: char)
  {
    c == ' ' || '\t' <= c <= '\r' || '\U{1c}' <= c <= '\U{1f}'
    || c == '\U{85}' || c == '\U{a0}' || c == '\U{1680}'
    || '\U{2000}' <= c <= '\U{200a}' || c == '\U{2028}' || c == '\U{2029}'
    || c == '\U{202f}' || c == '\U{205f}' || c == '\U{3000}'
  }

  /** Neither end of `s` is whitespace. */
  predicate Trimmed(s: string)
  {
    s == [] || (!IsSpace(s[0]) && !IsSpace(s[|s| - 1]))
  }

  /** No two whitespace characters stand next to each other. */
  ghost predicate NoDoubleSpace(s: string)
  {
    forall i, j :: 0 <= i < j < |s| && j == i + 1 ==> !(IsSpace(s[i]) && IsSpace(s[j]))
  }

  /** Every whitespace character in `s` is a plain blank. */
  predicate BlanksOnly(s: string)
  {
    forall i :: 0 <= i < |s| && IsSpace(s[i]) ==> s[i] == ' '
  }

  /** The non-whitespace characters of `s`, in order. */
  function Visible(s: string): string
  {
    if s == [] then [] else (if IsSpace(s[0]) then [] else [s[0]]) + Visible(s[1..])
  }

  function StripLeft(s: string): (r: string)
    ensures |r| <= |s| && r == s[|s| - |r|..]
    ensures forall i :: 0 <= i < |s| - |r| ==> IsSpace(s[i])
    ensures r == [] || !IsSpace(r[0])
    ensures Visible(r) == Visible(s)
  {
    if s != [] && IsSpace(s[0]) then
      var rest := s[1..];
      var r := StripLeft(rest);
      assert s[|s| - |r|..] == rest[|rest| - |r|..];
      r
    else s
  }

  function StripRight(s: string): (r: string)
    ensures |r| <= |s| && r == s[..|r|]
    ensures forall i :: |r| <= i < |s| ==> IsSpace(s[i])
    ensures r == [] || !IsSpace(r[|r| - 1])
    ensures Visible(r) == Visible(s)
  {
    if s != [] && IsSpace(s[|s| - 1]) then
      var init := s[..|s| - 1];
      assert s == init + [s[|s| - 1]];
      VisibleConcat(init, [s[|s| - 1]]);
      StripRight(init)
    else s
  }

  /** Where the trimmed text starts: the length of the leading whitespace. */
  function StripOffset(s: string): nat
  {
    |s| - |StripLeft(s)|
  }

  /** Python's `str.strip()`: `r` is the run of `s` between its whitespace
      ends, and a string that is already trimmed is left as it is. */
  function Strip(s: string): (r: string)
    ensures Trimmed(r)
    ensures StripOffset(s) + |r| <= |s| && r == s[StripOffset(s)..StripOffset(s) + |r|]
    ensures Trimmed(s) ==> r == s
    ensures Visible(r) == Visible(s)
  {
    var l := StripLeft(s);
    var r := StripRight(l);
    StripFacts(s, l, r);
    r
  }

  /** Cutting leading whitespace off `s` (giving `l`) and then trailing
      whitespace off `l` (giving `r`) leaves a trimmed slice of `s`, and
      nothing is cut from a string that is already trimmed. */
  lemma StripFacts(s: string, l: string, r: string)
    requires |l| <= |s| && l == s[|s| - |l|..]
    requires forall i :: 0 <= i < |s| - |l| ==> IsSpace(s[i])
    requires l == [] || !IsSpace(l[0])
    requires |r| <= |l| && r == l[..|r|]
    requires forall i :: |r| <= i < |l| ==> IsSpace(l[i])
    requires r == [] || !IsSpace(r[|r| - 1])
    ensures Trimmed(r)
    ensures r == s[|s| - |l|..|s| - |l| + |r|]
    ensures Trimmed(s) ==> r == s
  {
    if r != [] {
      assert r[0] == l[0];
    }
    SliceOfSuffix(s, |s| - |l|, |r|);
    if Trimmed(s) && s != [] {
      assert |s| - |l| == 0;
      assert l == s;
      assert |r| == |l|;
    }
  }

  lemma {:induction false} SliceKeepsNoDoubleSpace(s: string, a: nat, b: nat, t: string)
    requires a <= b <= |s| && t == s[a..b] && NoDoubleSpace(s) && BlanksOnly(s)
    ensures NoDoubleSpace(t) && BlanksOnly(t)
  {
    forall i | 0 <= i < b - a - 1 ensures !(IsSpace(t[i]) && IsSpace(t[i + 1])) {
      assert t[i] == s[a + i] && t[i + 1] == s[a + i + 1];
    }
  }

  /** Trimming a string whose blanks are single keeps them single. */
  lemma StripKeepsSpacing(s: string)
    requires NoDoubleSpace(s) && BlanksOnly(s)
    ensures NoDoubleSpace(Strip(s)) && BlanksOnly(Strip(s))
  {
    var r, a := Strip(s), StripOffset(s);
    assert a + |r| <= |s| && r == s[a..a + |r|];
    SliceKeepsNoDoubleSpace(s, a, a + |r|, r);
  }

  /** Text ending in a non-blank keeps its last character through
      `lstrip`. */
  lemma StripLeftKeepsLast(s: string)
    ensures s != [] && !IsSpace(s[|s| - 1]) ==>
      StripLeft(s) != [] && StripLeft(s)[|StripLeft(s)| - 1] == s[|s| - 1]
  {
    var r := StripLeft(s);
    if s != [] && r == [] {
      assert IsSpace(s[|s| - 1]);
    }
  }

  /** The leading whitespace of `a + b` is that of `a` when `a` ends in a
      non-blank. */
  lemma {:induction false} StripLeftConcat(a: string, b: string)
    requires a != [] && !IsSpace(a[|a| - 1])
    ensures StripLeft(a + b) == StripLeft(a) + b
    decreases |a|
  {
    assert (a + b)[0] == a[0];
    if IsSpace(a[0]) {
      assert (a + b)[1..] == a[1..] + b;
      assert a[1..][|a| - 2] == a[|a| - 1];
      StripLeftConcat(a[1..], b);
    }
  }

  /** Whitespace in front of text that starts with a non-blank is cut
      entirely. */
  lemma {:induction false} StripLeftBlanks(w: string, b: string)
    requires forall i :: 0 <= i < |w| ==> IsSpace(w[i])
    requires b == [] || !IsSpace(b[0])
    ensures StripLeft(w + b) == b
    decreases |w|
  {
    if w == [] {
      assert w + b == b;
    } else {
      assert (w + b)[0] == w[0];
      assert (w + b)[1..] == w[1..] + b;
      StripLeftBlanks(w[1..], b);
    }
  }

  /** The trailing whitespace of `a + b` is that of `b` when `b` starts
      with a non-blank. */
  lemma {:induction false} StripRightConcat(a: string, b: string)
    requires b != [] && !IsSpace(b[0])
    ensures StripRight(a + b) == a + StripRight(b)
    decreases |b|
  {
    var s := a + b;
    assert s[|s| - 1] == b[|b| - 1];
    if IsSpace(b[|b| - 1]) {
      var init := b[..|b| - 1];
      assert s[..|s| - 1] == a + init;
      assert init[0] == b[0];
      StripRightConcat(a, init);
    }
  }

  /** Trimming two non-blank-edged parts joined by one blank trims each
      part on its own. */
  lemma StripAroundBlank(x: string, y: string)
    requires x != [] && !IsSpace(x[|x| - 1])
    requires y != [] && !IsSpace(y[0])
    ensures Strip(x + " " + y) == Strip(x) + " " + Strip(y)
  {
    var lx := StripLeft(x);
    assert StripLeft(x + " " + y) == lx + " " + y by {
      ConcatAssoc(x, " ", y);
      StripLeftConcat(x, " " + y);
      ConcatAssoc(lx, " ", y);
    }
    assert StripRight(lx + " " + y) == lx + " " + StripRight(y) by {
      StripRightConcat(lx + " ", y);
    }
    assert Strip(x) == lx by {
      StripLeftKeepsLast(x);
      assert StripRight(lx) == lx;
    }
    assert Strip(y) == StripRight(y) by {
      assert StripLeft(y) == y;
    }
  }

  lemma {:induction false} VisibleConcat(a: string, b: string)
    ensures Visible(a + b) == Visible(a) + Visible(b)
  {
    if a == [] {
      assert a + b == b;
    } else {
      assert (a + b)[0] == a[0] && (a + b)[1..] == a[1..] + b;
      VisibleConcat(a[1..], b);
    }
  }

  /** Only whitespace has no visible characters. */
  lemma {:induction false} VisibleEmpty(x: string)
    ensures Visible(x) == [] <==> forall i :: 0 <= i < |x| ==> IsSpace(x[i])
    decreases |x|
  {
    if x != [] {
      VisibleEmpty(x[1..]);
      forall i | 1 <= i < |x| ensures x[1..][i - 1] == x[i] {
      }
    }
  }

  /** Trimming leaves nothing exactly when the text is all whitespace. */
  lemma StripEmpty(x: string)
    ensures Strip(x) == [] <==> forall i :: 0 <= i < |x| ==> IsSpace(x[i])
  {
    VisibleEmpty(x);
    var r := Strip(x);
    if r != [] {
      assert Visible(r) == [r[0]] + Visible(r[1..]);
    }
  }

  /** `re.sub(r'\s+', ' ', s)`: every maximal run of whitespace becomes a
      single blank. */
  function CollapseSpaces(s: string): (r: string)
    ensures |r| <= |s|
    ensures s != [] ==> r != [] && IsSpace(r[0]) == IsSpace(s[0])
    ensures s != [] && !IsSpace(s[0]) ==> r[0] == s[0]
    decreases |s|
  {
    if s == [] then []
    else if IsSpace(s[0]) then [' '] + CollapseSpaces(StripLeft(s[1..]))
    else [s[0]] + CollapseSpaces(s[1..])
  }

  /** After `re.sub(r'\s+', ' ', s)` the only whitespace left is single
      blanks, and every non-blank character is kept, in order. */
  lemma {:induction false} CollapseSpacesSpacing(s: string)
    ensures NoDoubleSpace(CollapseSpaces(s)) && BlanksOnly(CollapseSpaces(s))
    ensures Visible(CollapseSpaces(s)) == Visible(s)
    decreases |s|
  {
    if s != [] {
      CollapseStep(s);
      if IsSpace(s[0]) {
        var rest := StripLeft(s[1..]);
        var tail := CollapseSpaces(rest);
        CollapseSpacesSpacing(rest);
        assert Visible(s) == Visible(s[1..]);
        VisibleConcat([' '], tail);
        ConsKeepsSpacing(' ', tail);
      } else {
        var tail := CollapseSpaces(s[1..]);
        CollapseSpacesSpacing(s[1..]);
        VisibleConcat([s[0]], tail);
        ConsKeepsSpacing(s[0], tail);
      }
    }
  }

  lemma ConcatAssoc<T>(a: seq<T>, b: seq<T>, c: seq<T>)
    ensures a + (b + c) == a + b + c
  {
  }

  lemma SingleTail<T>(x: seq<T>, y: seq<T>, c: seq<T>)
    requires |x| == 1
    ensures x[1..] == [] && x[1..] + y == y && c + [] == c
  {
  }

  lemma TailOfConcat<T>(x: seq<T>, y: seq<T>)
    requires x != []
    ensures (x + y)[0] == x[0] && (x + y)[1..] == x[1..] + y
  {
  }

  /** One step of `re.sub(r'\s+', ' ', s)` from the left. */
  lemma CollapseStep(s: string)
    requires s != []
    ensures IsSpace(s[0]) ==> CollapseSpaces(s) == " " + CollapseSpaces(StripLeft(s[1..]))
    ensures !IsSpace(s[0]) ==> CollapseSpaces(s) == [s[0]] + CollapseSpaces(s[1..])
  {
  }

  /** `re.sub` rewrites run by run: when `x` ends in a non-blank no
      whitespace run crosses into `y`, so the two sides are rewritten
      apart. */
  lemma {:induction false} CollapseSplit(x: string, y: string)
    requires x != [] && !IsSpace(x[|x| - 1])
    ensures CollapseSpaces(x + y) == CollapseSpaces(x) + CollapseSpaces(y)
    decreases |x|, 1
  {
    if IsSpace(x[0]) {
      CollapseSplitAtBlank(x, y);
    } else {
      CollapseSplitAtChar(x, y);
    }
  }

  lemma {:induction false} CollapseSplitAtBlank(x: string, y: string)
    requires x != [] && !IsSpace(x[|x| - 1]) && IsSpace(x[0])
    ensures CollapseSpaces(x + y) == CollapseSpaces(x) + CollapseSpaces(y)
    decreases |x|, 0
  {
    var s := x + y;
    var l := StripLeft(x[1..]);
    var a, b := CollapseSpaces(l), CollapseSpaces(y);
    TailOfConcat(x, y);
    assert CollapseSpaces(s) == " " + CollapseSpaces(l + y) by {
      StripLeftConcat(x[1..], y);
      CollapseStep(s);
    }
    assert CollapseSpaces(x) == " " + a by {
      CollapseStep(x);
    }
    assert CollapseSpaces(l + y) == a + b by {
      StripLeftKeepsLast(x[1..]);
      CollapseSplit(l, y);
    }
    ConcatAssoc(" ", a, b);
  }

  lemma {:induction false} CollapseSplitAtChar(x: string, y: string)
    requires x != [] && !IsSpace(x[|x| - 1]) && !IsSpace(x[0])
    ensures CollapseSpaces(x + y) == CollapseSpaces(x) + CollapseSpaces(y)
    decreases |x|, 0
  {
    var s := x + y;
    var c := [x[0]];
    TailOfConcat(x, y);
    assert CollapseSpaces(s) == c + CollapseSpaces(x[1..] + y) by {
      CollapseStep(s);
    }
    assert CollapseSpaces(x) == c + CollapseSpaces(x[1..]) by {
      CollapseStep(x);
    }
    if |x| == 1 {
      SingleTail(x, y, c);
    } else {
      var a, b := CollapseSpaces(x[1..]), CollapseSpaces(y);
      assert CollapseSpaces(x[1..] + y) == a + b by {
        CollapseSplit(x[1..], y);
      }
      ConcatAssoc(c, a, b);
    }
  }

  /** Text ending in a non-blank keeps its last character through
      `re.sub`. */
  lemma {:induction false} CollapseKeepsLast(s: string)
    requires s != [] && !IsSpace(s[|s| - 1])
    ensures CollapseSpaces(s) != [] && CollapseSpaces(s)[|CollapseSpaces(s)| - 1] == s[|s| - 1]
    decreases |s|
  {
    if IsSpace(s[0]) {
      StripLeftKeepsLast(s[1..]);
      CollapseKeepsLast(StripLeft(s[1..]));
    } else if |s| > 1 {
      CollapseKeepsLast(s[1..]);
    }
  }

  /** Words keep exactly one blank between them: a whitespace run between
      a non-blank and a non-blank becomes a single ' '. */
  lemma CollapseSpacesJoinsWords(a: string, w: string, b: string)
    requires a != [] && !IsSpace(a[|a| - 1])
    requires w != [] && forall i :: 0 <= i < |w| ==> IsSpace(w[i])
    requires b != [] && !IsSpace(b[0])
    ensures CollapseSpaces(a + w + b) == CollapseSpaces(a) + " " + CollapseSpaces(b)
  {
    var t := w + b;
    ConcatAssoc(a, w, b);
    assert CollapseSpaces(a + t) == CollapseSpaces(a) + CollapseSpaces(t) by {
      CollapseSplit(a, t);
    }
    assert CollapseSpaces(t) == " " + CollapseSpaces(b) by {
      TailOfConcat(w, b);
      CollapseStep(t);
      StripLeftBlanks(w[1..], b);
    }
    ConcatAssoc(CollapseSpaces(a), " ", CollapseSpaces(b));
  }

  /** Putting a character in front of a string with single blanks keeps
      them single, unless a blank lands next to a blank. */
  lemma ConsKeepsSpacing(c: char, t: string)
    requires NoDoubleSpace(t) && BlanksOnly(t)
    requires IsSpace(c) ==> c == ' ' && (t == [] || !IsSpace(t[0]))
    ensures NoDoubleSpace([c] + t) && BlanksOnly([c] + t)
  {
    var r := [c] + t;
    forall i, j | 0 <= i < j < |r| && j == i + 1 ensures !(IsSpace(r[i]) && IsSpace(r[j])) {
      if i > 0 {
        assert r[i] == t[i - 1] && r[j] == t[j - 1];
      }
    }
  }

  // ----------------------------------------------------------------- tags

  /** No tag is left: every '<' that is followed by some character other
      than '>' has no '>' anywhere after it. */
  ghost predicate TagFree(s: string)
  {
    forall i, j, m :: 0 <= i && j == i + 1 && j < m < |s| && s[i] == '<' && s[j] != '>' ==> s[m] != '>'
  }

  /** Index of the first '>' in `s` at or after `from`. */
  function NextClose(s: string, from: nat): (r: Option<nat>)
    requires from <= |s|
    ensures r.Some? ==> from <= r.value < |s| && s[r.value] == '>'
    ensures r.Some? ==> forall m :: from <= m < r.value ==> s[m] != '>'
    ensures r.None? ==> forall m :: from <= m < |s| ==> s[m] != '>'
    decreases |s| - from
  {
    if from == |s| then None
    else if s[from] == '>' then Some(from)
    else NextClose(s, from + 1)
  }

  /** `re.sub(r'<[^>]+>', '', s)`: scanning left to right, a '<' that is
      followed by at least one character and then a '>' is removed together
      with everything up to and including the first such '>'. */
  function StripTags(s: string): (r: string)
    ensures |r| <= |s|
    ensures TagFree(r)
    ensures (forall i :: 0 <= i < |s| ==> s[i] != '>') ==> forall i :: 0 <= i < |r| ==> r[i] != '>'
    ensures s != [] && s[0] != '<' ==> r != [] && r[0] == s[0]
    decreases |s|
  {
    if s == [] then []
    else if s[0] == '<' && |s| >= 2 && s[1] != '>' then
      var close := NextClose(s, 1);
      if close.Some? then StripTags(s[close.value + 1..])
      else
        var rest := StripTags(s[1..]);
        TagFreeCons(s[0], rest);
        [s[0]] + rest
    else
      var rest := StripTags(s[1..]);
      assert s[0] == '<' && |s| >= 2 ==> rest[0] == '>';
      TagFreeCons(s[0], rest);
      [s[0]] + rest
  }

  /** A character absent from both parts is absent from their join. */
  lemma AbsentFromConcat(a: string, b: string, c: char)
    requires forall i :: 0 <= i < |a| ==> a[i] != c
    requires forall i :: 0 <= i < |b| ==> b[i] != c
    ensures forall i :: 0 <= i < |a + b| ==> (a + b)[i] != c
  {
    forall i | 0 <= i < |a + b| ensures (a + b)[i] != c {
      if i >= |a| {
        assert (a + b)[i] == b[i - |a|];
      }
    }
  }

  /** A character that does not open a tag is copied. */
  lemma StripTagsKeepsChar(c: char, t: string)
    requires c != '<'
    ensures StripTags([c] + t) == [c] + StripTags(t)
  {
    TailOfConcat([c], t);
    SingleTail([c], t, []);
  }

  /** A prefix holding no '<' opens no tag and is copied, whatever follows. */
  lemma {:induction false} StripTagsKeepsPlainPrefix(p: string, t: string)
    requires forall i :: 0 <= i < |p| ==> p[i] != '<'
    ensures StripTags(p + t) == p + StripTags(t)
    decreases |p|
  {
    if p == [] {
      assert p + t == t;
    } else {
      var rest := p[1..] + t;
      assert p + t == [p[0]] + rest by {
        ConcatAssoc([p[0]], p[1..], t);
        assert [p[0]] + p[1..] == p;
      }
      StripTagsKeepsChar(p[0], rest);
      StripTagsKeepsPlainPrefix(p[1..], t);
      ConcatAssoc([p[0]], p[1..], StripTags(t));
      assert [p[0]] + p[1..] == p;
    }
  }

  /** Text holding no '<' holds no tag and comes back unchanged. */
  lemma StripTagsPlainText(s: string)
    requires forall i :: 0 <= i < |s| ==> s[i] != '<'
    ensures StripTags(s) == s
  {
    StripTagsKeepsPlainPrefix(s, []);
    assert s + [] == s;
  }

  /** A '<' with no '>' anywhere after it never closes a tag, so text
      holding no '>' comes back unchanged too. */
  lemma {:induction false} StripTagsUnclosed(s: string)
    requires forall i :: 0 <= i < |s| ==> s[i] != '>'
    ensures StripTags(s) == s
    decreases |s|
  {
    if s != [] {
      if s[0] == '<' && |s| >= 2 {
        assert NextClose(s, 1).None?;
      }
      assert s == [s[0]] + s[1..];
      StripTagsUnclosed(s[1..]);
    }
  }

  /** A tag at the front is removed whole. */
  lemma StripTagsAtTag(x: string, q: string)
    requires x != [] && forall i :: 0 <= i < |x| ==> x[i] != '>'
    ensures StripTags("<" + x + ">" + q) == StripTags(q)
  {
    var s := "<" + x + ">" + q;
    var c := |x| + 1;
    assert s[0] == '<' && s[1] == x[0] && s[c] == '>';
    forall m | 1 <= m < c ensures s[m] != '>' {
      assert s[m] == x[m - 1];
    }
    assert NextClose(s, 1) == Some(c);
    assert s[c + 1..] == q;
  }

  /** A tag (a '<', at least one character other than '>', and the first
      '>' after them) is removed whole; the text before it, which holds no
      '<', is kept. */
  lemma StripTagsDropsTag(p: string, x: string, q: string)
    requires forall i :: 0 <= i < |p| ==> p[i] != '<'
    requires x != [] && forall i :: 0 <= i < |x| ==> x[i] != '>'
    ensures StripTags(p + "<" + x + ">" + q) == p + StripTags(q)
  {
    var tail := "<" + x + ">" + q;
    assert p + "<" + x + ">" + q == p + tail;
    StripTagsKeepsPlainPrefix(p, tail);
    StripTagsAtTag(x, q);
  }

  /** Empty brackets are not a tag: "<>" is kept. */
  lemma EmptyBracketsKept(q: string)
    ensures StripTags("<>" + q) == "<>" + StripTags(q)
  {
    var s := "<>" + q;
    assert s[0] == '<' && s[1] == '>';
    TailOfConcat("<>", q);
    assert s[1..] == [">"[0]] + q;
    StripTagsKeepsChar('>', q);
    ConcatAssoc("<", ">", StripTags(q));
  }

  lemma {:induction false} TagFreeCons(c: char, rest: string)
    requires TagFree(rest)
    requires c == '<' && |rest| > 0 && rest[0] != '>' ==> forall m :: 0 <= m < |rest| ==> rest[m] != '>'
    ensures TagFree([c] + rest)
  {
    var s := [c] + rest;
    forall i, j, m | 0 <= i && j == i + 1 && j < m < |s| && s[i] == '<' && s[j] != '>'
      ensures s[m] != '>'
    {
      assert s[m] == rest[m - 1] && s[j] == rest[i];
      if i > 0 {
        assert rest[i - 1] == '<';
      }
    }
  }

  // ------------------------------------------------------------- joining

  /** `''.join(parts)`: the parts one after another. */
  function Join(parts: seq<string>): string
    decreases |parts|
  {
    if parts == [] then [] else Join(parts[..|parts| - 1]) + parts[|parts| - 1]
  }

  /** Joining splits at every part boundary. */
  lemma {:induction false} JoinSplit(parts: seq<string>, k: nat)
    requires k <= |parts|
    ensures Join(parts) == Join(parts[..k]) + Join(parts[k..])
    decreases |parts|
  {
    if k < |parts| {
      var n := |parts|;
      JoinSplit(parts[..n - 1], k);
      assert parts[..n - 1][..k] == parts[..k];
      assert parts[k..][..n - 1 - k] == parts[..n - 1][k..];
      assert parts[k..][n - 1 - k] == parts[n - 1];
    } else {
      assert parts[..k] == parts;
      assert parts[k..] == [];
    }
  }

  /** Part `k` appears in the joined string right after the parts before
      it. */
  lemma JoinShowsPart(parts: seq<string>, k: nat)
    requires k < |parts|
    ensures Join(parts[..k]) + parts[k] <= Join(parts)
    ensures OccursAt(Join(parts), parts[k], |Join(parts[..k])|)
  {
    JoinSplit(parts, k);
    JoinSplit(parts[k..], 1);
    assert parts[k..][..1] == [parts[k]];
    assert Join([parts[k]]) == parts[k] by {
      assert [parts[k]][..0] == [];
    }
    var j := Join(parts);
    var pre := Join(parts[..k]);
    assert j == pre + parts[k] + Join(parts[k..][1..]);
    assert j[|pre|..|pre| + |parts[k]|] == parts[k];
  }

  /** A prefix stays a prefix behind a common head and before any tail. */
  lemma PrefixInContext(head: string, p: string, q: string, tail: string)
    requires p <= q
    ensures head + p <= head + q + tail
  {
    assert q == p + q[|p|..];
    assert head + q + tail == head + p + (q[|p|..] + tail);
  }

  /** Part `k` of a joined list, framed by a head and a tail, comes right
      after the head and the parts before it. */
  lemma JoinedPartInContext(head: string, parts: seq<string>, k: nat, tail: string)
    requires k < |parts|
    ensures head + Join(parts[..k]) + parts[k] <= head + Join(parts) + tail
  {
    JoinShowsPart(parts, k);
    PrefixInContext(head, Join(parts[..k]) + parts[k], Join(parts), tail);
    ConcatAssoc(head, Join(parts[..k]), parts[k]);
  }

  lemma JoinThree(a: string, b: string, c: string)
    ensures Join([a, b, c]) == a + b + c
  {
    assert [a][..0] == [];
    assert Join([a]) == a;
    assert [a, b][..1] == [a];
    assert Join([a, b]) == a + b;
    assert [a, b, c][..2] == [a, b];
  }

  // -------------------------------------------------------------- numbers

  function DigitChar(d: nat): (c: char)
    requires d < 10
    ensures '0' <= c <= '9'
  {
    ('0' as int + d) as char
  }

  predicate AllDigits(s: string)
  {
    forall i :: 0 <= i < |s| ==> '0' <= s[i] <= '9'
  }

  /** `str(n)` for a natural number: its decimal digits. */
  function NatToString(n: nat): (r: string)
    ensures |r| >= 1 && AllDigits(r)
    ensures r[0] == '0' ==> n == 0
    decreases n
  {
    if n < 10 then [DigitChar(n)] else NatToString(n / 10) + [DigitChar(n % 10)]
  }

  /** The number a string of decimal digits denotes. */
  function DecimalValue(s: string): nat
    requires AllDigits(s)
  {
    if s == [] then 0 else DecimalValue(s[..|s| - 1]) * 10 + (s[|s| - 1] as int - '0' as int)
  }

  /** Decimal rendering loses nothing: the digits read back as `n`. */
  lemma {:induction false} DecimalRoundTrip(n: nat)
    ensures DecimalValue(NatToString(n)) == n
  {
    if n >= 10 {
      var s := NatToString(n);
      assert s[..|s| - 1] == NatToString(n / 10);
      DecimalRoundTrip(n / 10);
    }
  }
}
