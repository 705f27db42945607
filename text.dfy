/** Character-level string operations that the prompt code in app.py relies
    on: Python's whitespace test and `str.strip()`, `str.split('\n')` and
    `'\n'.join(...)`, and prefix, suffix and substring tests. */
module Text {

  /** Python's `str.isspace()` for one character: exactly the characters
      that `str.strip()` without an argument removes. */
  predicate IsSpace(c: char)
    ensures c == ' ' || c == '\t' || c == '\n' || c == '\r' ==> IsSpace(c)
    ensures '!' <= c <= '~' ==> !IsSpace(c)
  {
    ('\t' <= c <= '\r') || ('\U{1C}' <= c <= ' ') || c == '\U{85}' || c == '\U{A0}' ||
    c == '\U{1680}' || ('\U{2000}' <= c <= '\U{200A}') || c == '\U{2028}' || c == '\U{2029}' ||
    c == '\U{202F}' || c == '\U{205F}' || c == '\U{3000}'
  }

  /** Every character of `s` at an index in [lo, hi) is whitespace. */
  predicate SpaceIn(s: string, lo: int, hi: int)
  {
    forall k :: lo <= k < hi && 0 <= k < |s| ==> IsSpace(s[k])
  }

  predicate AllSpace(s: string)
  {
    SpaceIn(s, 0, |s|)
  }

  predicate StartsWith(s: string, prefix: string)
  {
    |prefix| <= |s| && s[..|prefix|] == prefix
  }

  predicate EndsWith(s: string, suffix: string)
  {
    |suffix| <= |s| && s[|s| - |suffix|..] == suffix
  }

  /** `sub` occurs in `s` starting at index `i`. */
  predicate OccursAt(s: string, sub: string, i: int)
  {
    0 <= i <= |s| - |sub| && s[i..i + |sub|] == sub
  }

  /** Python's `sub in s`. */
  predicate Contains(s: string, sub: string)
  {
    exists i | 0 <= i <= |s| - |sub| :: OccursAt(s, sub, i)
  }

  /** `s[i..j]` is what stripping `s` keeps: only whitespace lies outside it,
      and it neither starts nor ends with whitespace. */
  predicate Trimmed(s: string, i: int, j: int)
  {
    0 <= i <= j <= |s| && SpaceIn(s, 0, i) && SpaceIn(s, j, |s|) &&
    (i < j ==> !IsSpace(s[i]) && !IsSpace(s[j - 1]))
  }

  /** Scanning forward from `i`, the index of the first character that is
      not whitespace (or `|s|`). */
  function SkipSpace(s: string, i: nat): (k: nat)
    requires i <= |s|
    ensures i <= k <= |s| && SpaceIn(s, i, k)
    ensures k == |s| || !IsSpace(s[k])
    decreases |s| - i
  {
    if i < |s| && IsSpace(s[i]) then SkipSpace(s, i + 1) else i
  }

  /** Scanning backward from `j`, but not below `lo`, the index just past
      the last character that is not whitespace (or `lo`). */
  function SkipSpaceBack(s: string, lo: nat, j: nat): (k: nat)
    requires lo <= j <= |s|
    ensures lo <= k <= j && SpaceIn(s, k, j)
    ensures k == lo || !IsSpace(s[k - 1])
  {
    if lo < j && IsSpace(s[j - 1]) then SkipSpaceBack(s, lo, j - 1) else j
  }

  /** Python's `s.strip()`: the slice of `s` left after removing whitespace
      at both ends (the two scans CPython makes). */
  function Strip(s: string): (r: string)
    ensures exists i, j :: Trimmed(s, i, j) && r == s[i..j]
  {
    var i := SkipSpace(s, 0);
    var j := SkipSpaceBack(s, i, |s|);
    assert Trimmed(s, i, j);
    s[i..j]
  }

  /** The forward scan stops at the first character that is not whitespace. */
  lemma {:induction false} SkipSpaceAt(s: string, i: nat, k: nat)
    requires i <= k <= |s| && SpaceIn(s, i, k)
    requires k == |s| || !IsSpace(s[k])
    ensures SkipSpace(s, i) == k
    decreases k - i
  {
    if i < k {
      SkipSpaceAt(s, i + 1, k);
    }
  }

  /** The backward scan stops just past the last character that is not
      whitespace. */
  lemma {:induction false} SkipSpaceBackAt(s: string, lo: nat, j: nat, k: nat)
    requires lo <= k <= j <= |s| && SpaceIn(s, k, j)
    requires k == lo || !IsSpace(s[k - 1])
    ensures SkipSpaceBack(s, lo, j) == k
    decreases j - k
  {
    if k < j {
      SkipSpaceBackAt(s, lo, j - 1, k);
    }
  }

  /** Strip only removes characters. */
  lemma StripNoLonger(s: string)
    ensures |Strip(s)| <= |s|
  {
  }

  /** Strip is determined by its contract: a trimmed slice of `s` is `Strip(s)`. */
  lemma StripUnique(s: string, i: nat, j: nat)
    requires Trimmed(s, i, j)
    ensures Strip(s) == s[i..j]
  {
    if i == j {
      SkipSpaceAt(s, 0, |s|);
      SkipSpaceBackAt(s, |s|, |s|, |s|);
    } else {
      SkipSpaceAt(s, 0, i);
      SkipSpaceBackAt(s, i, |s|, j);
    }
  }

  /** What Strip keeps neither starts nor ends with whitespace. */
  lemma StripHasNoOuterSpace(s: string)
    ensures var r := Strip(s); r == [] || (!IsSpace(r[0]) && !IsSpace(r[|r| - 1]))
  {
    var i := SkipSpace(s, 0);
    var j := SkipSpaceBack(s, i, |s|);
    assert i < j ==> s[i..j][0] == s[i] && s[i..j][j - i - 1] == s[j - 1];
  }

  /** Stripping twice is stripping once. */
  lemma StripIdempotent(s: string)
    ensures Strip(Strip(s)) == Strip(s)
  {
    var r := Strip(s);
    StripHasNoOuterSpace(s);
    assert Trimmed(r, 0, |r|);
    StripUnique(r, 0, |r|);
  }

  /** Whitespace added around a string does not change what it strips to. */
  lemma StripPadded(pre: string, s: string, post: string)
    requires AllSpace(pre) && AllSpace(post)
    ensures Strip(pre + s + post) == Strip(s)
  {
    var i := SkipSpace(s, 0);
    StripPaddedAt(pre, s, post, i, SkipSpaceBack(s, i, |s|));
  }

  lemma StripPaddedAt(pre: string, s: string, post: string, i: nat, j: nat)
    requires AllSpace(pre) && AllSpace(post) && Trimmed(s, i, j)
    ensures Strip(pre + s + post) == s[i..j]
  {
    TrimmedPadded(pre, s, post, i, j);
    StripUnique(pre + s + post, |pre| + i, |pre| + j);
    SliceOfPadded(pre, s, post, i, j);
  }

  lemma TrimmedPadded(pre: string, s: string, post: string, i: nat, j: nat)
    requires AllSpace(pre) && AllSpace(post) && Trimmed(s, i, j)
    ensures Trimmed(pre + s + post, |pre| + i, |pre| + j)
  {
    var w := pre + s + post;
    forall k | 0 <= k < |pre| + i ensures IsSpace(w[k]) {
      if k < |pre| { assert w[k] == pre[k]; } else { assert w[k] == s[k - |pre|]; }
    }
    forall k | |pre| + j <= k < |w| ensures IsSpace(w[k]) {
      if k < |pre| + |s| { assert w[k] == s[k - |pre|]; } else { assert w[k] == post[k - |pre| - |s|]; }
    }
    assert i < j ==> w[|pre| + i] == s[i] && w[|pre| + j - 1] == s[j - 1];
  }

  lemma SliceOfPadded(pre: string, s: string, post: string, i: nat, j: nat)
    requires i <= j <= |s|
    ensures (pre + s + post)[|pre| + i..|pre| + j] == s[i..j]
  {
    var w := pre + s + post;
    forall k | 0 <= k < j - i ensures w[|pre| + i..|pre| + j][k] == s[i..j][k] {
      assert w[|pre| + i + k] == s[i + k];
    }
  }

  /** Python's `s.split('\n')`: the pieces between newlines, at least one,
      none containing a newline; the first piece is a prefix of `s`. */
  function Split(s: string): (lines: seq<string>)
    ensures |lines| >= 1
    ensures forall k :: 0 <= k < |lines| ==> '\n' !in lines[k]
    ensures StartsWith(s, lines[0])
  {
    if s == [] then [""]
    else
      var rest := Split(s[1..]);
      if s[0] == '\n' then [""] + rest
      else [[s[0]] + rest[0]] + rest[1..]
  }

  /** Python's `'\n'.join(lines)`. */
  function Join(lines: seq<string>): (r: string)
    ensures lines != [] ==> |r| >= |lines| - 1 + |lines[0]|
  {
    if lines == [] then ""
    else if |lines| == 1 then lines[0]
    else lines[0] + "\n" + Join(lines[1..])
  }

  /** Joining the pieces of a split gives back the original string. */
  lemma {:induction false} JoinSplit(s: string)
    ensures Join(Split(s)) == s
  {
    if s != [] {
      var rest := Split(s[1..]);
      JoinSplit(s[1..]);
      if s[0] == '\n' {
        assert Split(s) == [""] + rest;
        assert Split(s)[1..] == rest;
      } else {
        var lines := Split(s);
        assert lines[0] == [s[0]] + rest[0] && lines[1..] == rest[1..];
        if |rest| > 1 {
          assert rest[1..] != [];
          assert Join(rest) == rest[0] + "\n" + Join(rest[1..]);
        }
      }
    }
  }

  /** Splitting joined newline-free pieces gives back the pieces. */
  lemma {:induction false} SplitJoin(lines: seq<string>)
    requires |lines| >= 1
    requires forall k :: 0 <= k < |lines| ==> '\n' !in lines[k]
    ensures Split(Join(lines)) == lines
  {
    if |lines| == 1 {
      SplitSingle(lines[0]);
    } else {
      SplitJoin(lines[1..]);
      SplitAround(lines[0], Join(lines[1..]));
      SplitSingle(lines[0]);
    }
  }

  /** A string without a newline splits into itself. */
  lemma {:induction false} SplitSingle(s: string)
    requires '\n' !in s
    ensures Split(s) == [s]
  {
    if s != [] {
      assert '\n' !in s[1..] by {
        forall k | 0 <= k < |s[1..]| ensures s[1..][k] != '\n' { assert s[1..][k] == s[k + 1]; }
      }
      SplitSingle(s[1..]);
      assert s[0] != '\n';
      assert [s[0]] + s[1..] == s;
    }
  }

  /** A newline separates the pieces of what precedes it from the pieces of
      what follows it. */
  lemma {:induction false} SplitAround(a: string, b: string)
    ensures Split(a + "\n" + b) == Split(a) + Split(b)
  {
    if a == [] {
      assert a + "\n" + b == "\n" + b;
      assert ("\n" + b)[1..] == b;
    } else {
      var s := a + "\n" + b;
      assert s[0] == a[0] && s[1..] == a[1..] + "\n" + b;
      SplitAround(a[1..], b);
    }
  }

  /** Joining two non-empty lists of pieces is joining each and putting a
      newline between them. */
  lemma {:induction false} JoinAppend(xs: seq<string>, ys: seq<string>)
    requires xs != [] && ys != []
    ensures Join(xs + ys) == Join(xs) + "\n" + Join(ys)
  {
    if |xs| == 1 {
      assert (xs + ys)[1..] == ys;
    } else {
      assert (xs + ys)[1..] == xs[1..] + ys;
      JoinAppend(xs[1..], ys);
    }
  }

  /** Joining pieces that are each no longer than their counterparts gives a
      string no longer than joining the counterparts. */
  lemma {:induction false} JoinNoLonger(xs: seq<string>, ys: seq<string>)
    requires |xs| == |ys|
    requires forall k :: 0 <= k < |xs| ==> |xs[k]| <= |ys[k]|
    ensures |Join(xs)| <= |Join(ys)|
  {
    if |xs| > 1 {
      JoinNoLonger(xs[1..], ys[1..]);
    }
  }

  /** Every piece of a split is a slice of the split string. */
  lemma {:induction false} SplitPieceIsSlice(s: string, k: nat)
    requires k < |Split(s)|
    ensures exists a :: OccursAt(s, Split(s)[k], a)
  {
    var line := Split(s)[k];
    if k == 0 {
      assert OccursAt(s, line, 0);
    } else {
      var rest := Split(s[1..]);
      assert line == rest[k - (if s[0] == '\n' then 1 else 0)];
      SplitPieceIsSlice(s[1..], k - (if s[0] == '\n' then 1 else 0));
      var a :| OccursAt(s[1..], line, a);
      assert s[a + 1..a + 1 + |line|] == line;
      assert OccursAt(s, line, a + 1);
    }
  }

  /** What a slice of `s` contains, `s` contains. */
  lemma ContainsInSlice(s: string, a: nat, b: nat, sub: string)
    requires a <= b <= |s|
    requires Contains(s[a..b], sub)
    ensures Contains(s, sub)
  {
    var i :| 0 <= i <= |s[a..b]| - |sub| && OccursAt(s[a..b], sub, i);
    forall t | 0 <= t < |sub| ensures s[a + i..a + i + |sub|][t] == sub[t] {
      assert s[a..b][i..i + |sub|][t] == sub[t];
    }
    assert OccursAt(s, sub, a + i);
  }

  /** A string contains whatever it starts or ends with. */
  lemma ContainsEnds(s: string, sub: string)
    ensures StartsWith(s, sub) ==> Contains(s, sub)
    ensures EndsWith(s, sub) ==> Contains(s, sub)
  {
    if StartsWith(s, sub) { assert OccursAt(s, sub, 0); }
    if EndsWith(s, sub) { assert OccursAt(s, sub, |s| - |sub|); }
  }

  /** A concatenation contains each of its middle parts. */
  lemma ContainsMiddle(pre: string, sub: string, post: string)
    ensures Contains(pre + sub + post, sub)
  {
    assert (pre + sub + post)[|pre|..|pre| + |sub|] == sub;
    assert OccursAt(pre + sub + post, sub, |pre|);
  }

  /** Equal strings that agree around a middle part agree on it. */
  lemma CancelAround(pre: string, x: string, y: string, post: string)
    requires pre + x + post == pre + y + post
    ensures x == y
  {
    var w := pre + x + post;
    assert |x| == |y|;
    assert w[|pre|..|pre| + |x|] == x;
    assert (pre + y + post)[|pre|..|pre| + |y|] == y;
  }

  /** A concatenation starts with its first part and ends with its second. */
  lemma Affixes(a: string, b: string)
    ensures StartsWith(a + b, a) && EndsWith(a + b, b)
  {
    assert (a + b)[..|a|] == a;
    assert (a + b)[|a|..] == b;
  }

  /** A concatenation of three ends with its last two parts. */
  lemma EndsWithPair(a: string, b: string, c: string)
    ensures EndsWith(a + b + c, b + c)
  {
    assert (a + b + c)[|a|..] == b + c;
  }

  /** Whatever follows a prefix, through any number of appended parts, keeps it. */
  lemma StartsWithChain(s: string, a: string, b: string, c: string)
    ensures StartsWith(s + a + b + c, s)
  {
    assert (s + a + b + c)[..|s|] == s;
  }

  /** A suffix of a suffix is a suffix. */
  lemma EndsWithTrans(s: string, mid: string, suffix: string)
    requires EndsWith(s, mid) && EndsWith(mid, suffix)
    ensures EndsWith(s, suffix)
  {
    assert s[|s| - |suffix|..] == s[|s| - |mid|..][|mid| - |suffix|..];
  }

  /** A string that starts with `p` and, after `p`, ends with `q` is `p`,
      then what lies between, then `q`. */
  lemma Unframe(s: string, p: string, q: string)
    requires StartsWith(s, p) && EndsWith(s[|p|..], q)
    ensures var rest := s[|p|..]; s == p + rest[..|rest| - |q|] + q
  {
    var rest := s[|p|..];
    assert s == s[..|p|] + rest;
    assert rest == rest[..|rest| - |q|] + rest[|rest| - |q|..];
  }

  /** What a string contains, anything ending with it contains. */
  lemma ContainsAfter(pre: string, s: string, sub: string)
    requires Contains(s, sub)
    ensures Contains(pre + s, sub)
  {
    var i :| 0 <= i <= |s| - |sub| && OccursAt(s, sub, i);
    assert (pre + s)[|pre| + i..|pre| + i + |sub|] == s[i..i + |sub|];
    assert OccursAt(pre + s, sub, |pre| + i);
  }

  /** A character other than a newline, appended, lands on the last piece. */
  lemma {:induction false} SplitSnoc(s: string, c: char)
    requires c != '\n'
    ensures var lines := Split(s);
      Split(s + [c]) == lines[..|lines| - 1] + [lines[|lines| - 1] + [c]]
  {
    if s == [] {
      SplitSingle([c]);
      assert s + [c] == [c];
    } else {
      var t := s[1..];
      assert (s + [c])[0] == s[0] && (s + [c])[1..] == t + [c];
      SplitSnoc(t, c);
      if s[0] == '\n' {
        SnocBehindEmpty(Split(t), Split(t + [c]), c);
      } else {
        SnocOntoFirst(s[0], Split(t), Split(t + [c]), c);
      }
    }
  }

  lemma SnocBehindEmpty(rest: seq<string>, restC: seq<string>, c: char)
    requires |rest| >= 1 && restC == rest[..|rest| - 1] + [rest[|rest| - 1] + [c]]
    ensures var lines := [""] + rest;
      [""] + restC == lines[..|lines| - 1] + [lines[|lines| - 1] + [c]]
  {
    var lines := [""] + rest;
    assert lines[..|lines| - 1] == [""] + rest[..|rest| - 1];
  }

  lemma SnocOntoFirst(x: char, rest: seq<string>, restC: seq<string>, c: char)
    requires |rest| >= 1 && restC == rest[..|rest| - 1] + [rest[|rest| - 1] + [c]]
    ensures var lines := [[x] + rest[0]] + rest[1..];
      [[x] + restC[0]] + restC[1..] == lines[..|lines| - 1] + [lines[|lines| - 1] + [c]]
  {
    var lines := [[x] + rest[0]] + rest[1..];
    if |rest| == 1 {
      assert [x] + restC[0] == lines[0] + [c];
    } else {
      assert restC[0] == rest[0];
      assert restC[1..] == rest[1..|rest| - 1] + [rest[|rest| - 1] + [c]];
      assert lines[..|lines| - 1] == [[x] + rest[0]] + rest[1..|rest| - 1];
    }
  }

  /** The whitespace run of `s` between `lo` and `hi`, as a string of its own. */
  /** Cutting a string at `i` and `j` gives three pieces that make it up. */
  lemma SliceParts(s: string, i: nat, j: nat)
    requires i <= j <= |s|
    ensures s[..j] == s[..i] + s[i..j] && s[i..] == s[i..j] + s[j..]
    ensures s == s[..i] + s[i..j] + s[j..]
  {
  }

  lemma AllSpaceAppend(a: string, b: string)
    requires AllSpace(a) && AllSpace(b)
    ensures AllSpace(a + b)
  {
    forall k | 0 <= k < |a + b| ensures IsSpace((a + b)[k]) {
      if k >= |a| { assert (a + b)[k] == b[k - |a|]; }
    }
  }

  lemma SpaceInSlice(s: string, lo: nat, hi: nat)
    requires lo <= hi <= |s| && SpaceIn(s, lo, hi)
    ensures AllSpace(s[lo..hi])
  {
    forall k | 0 <= k < hi - lo ensures IsSpace(s[lo..hi][k]) {
      assert s[lo..hi][k] == s[lo + k];
    }
  }
}
