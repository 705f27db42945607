/** The markdown-fence clean-up applied to every reply of the text service
    before it is parsed as JSON (app.py lines 128, 350 and 400):

      re.sub(r"^```json|^```|```$", "", text.strip(), flags=re.MULTILINE).strip()

    With MULTILINE, `^` matches at the start of the text and after each
    '\n', and `$` before each '\n' and at the end; none of the three
    alternatives can match across a '\n' or match the empty string. So the
    substitution acts on each '\n'-separated line on its own: at the start
    of a line it removes "```json" if present and otherwise "```"; scanning
    on from there, the only other match is "```" ending exactly at the end
    of the line. That per-line rule is modelled here directly. */
module Fences {
  import opened Text

  const Fence := "```"
  const JsonFence := "```json"

  /** The substitution on one line: a leading "```json" (tried first) or
      "```" goes, then a "```" that ends what is left goes. So the line is
      the removed prefix, then the result, then the removed suffix; the
      prefix is "```json" exactly when the line starts with it, and empty
      exactly when the line does not start with "```"; the suffix is "```"
      exactly when what follows the prefix ends with "```". The line is
      left as it is exactly when it neither starts nor ends with "```". */
  function StripLine(line: string): (r: string)
    ensures exists p, q :: RemovedAround(line, p, r, q)
    ensures (r == line) <==> (!StartsWith(line, Fence) && !EndsWith(line, Fence))
  {
    var p := LeadingFence(line);
    var rest := line[|p|..];
    var q := if EndsWith(rest, Fence) then Fence else "";
    var r := rest[..|rest| - |q|];
    Unframe(line, p, q);
    assert RemovedAround(line, p, r, q);
    r
  }

  /** The fence the regex removes at the start of a line: "```json" when the
      line starts with it, else "```" when it starts with that, else nothing. */
  function LeadingFence(line: string): (p: string)
    ensures p == JsonFence || p == Fence || p == ""
    ensures StartsWith(line, p)
    ensures p == JsonFence <==> StartsWith(line, JsonFence)
    ensures p == "" <==> !StartsWith(line, Fence)
  {
    assert StartsWith(line, JsonFence) ==> line[..|Fence|] == line[..|JsonFence|][..|Fence|];
    if StartsWith(line, JsonFence) then JsonFence
    else if StartsWith(line, Fence) then Fence
    else ""
  }

  /** `line` is `p + r + q`, where `p` is the fence the regex removes at the
      start of the line and `q` the one it removes at the end of what is left. */
  predicate RemovedAround(line: string, p: string, r: string, q: string)
  {
    line == p + r + q &&
    (p == JsonFence || p == Fence || p == "") && (q == Fence || q == "") &&
    (p == JsonFence <==> StartsWith(line, JsonFence)) &&
    (p == "" <==> !StartsWith(line, Fence)) &&
    |p| <= |line| &&
    (q == Fence <==> EndsWith(line[|p|..], Fence))
  }

  /** The contract of StripLine leaves no choice: any `r` that the line
      splits around as `RemovedAround` describes is `StripLine(line)`. */
  lemma StripLineDetermined(line: string, p: string, r: string, q: string)
    requires RemovedAround(line, p, r, q)
    ensures r == StripLine(line)
  {
    var p', q' :| RemovedAround(line, p', StripLine(line), q');
    RemovedAroundUnique(line, p, r, q, p', StripLine(line), q');
  }

  lemma RemovedAroundUnique(line: string, p: string, r: string, q: string, p': string, r': string, q': string)
    requires RemovedAround(line, p, r, q) && RemovedAround(line, p', r', q')
    ensures r == r'
  {
    if StartsWith(line, JsonFence) {
      assert p == p' == JsonFence;
    } else if StartsWith(line, Fence) {
      assert p != JsonFence && p' != JsonFence && p != "" && p' != "";
      assert p == p' == Fence;
    } else {
      assert p == p' == "";
    }
    if EndsWith(line[|p|..], Fence) {
      assert q == q' == Fence;
    } else {
      assert q == q' == "";
    }
    assert r == line[|p|..|line| - |q|];
    assert r' == line[|p|..|line| - |q|];
  }

  /** StripLine applied to every line. */
  function StripLines(lines: seq<string>): (r: seq<string>)
    ensures |r| == |lines|
    ensures forall k :: 0 <= k < |r| ==> |r[k]| <= |lines[k]|
    ensures forall k :: 0 <= k < |r| && !StartsWith(lines[k], Fence) && !EndsWith(lines[k], Fence) ==> r[k] == lines[k]
  {
    seq(|lines|, k requires 0 <= k < |lines| => StripLine(lines[k]))
  }

  /** The whole clean-up: strip, apply StripLine to every line, re-join
      with '\n', strip again. The result never starts or ends with
      whitespace. */
  function StripFences(text: string): (r: string)
    ensures r == [] || (!IsSpace(r[0]) && !IsSpace(r[|r| - 1]))
  {
    var cleaned := Join(StripLines(Split(Strip(text))));
    StripHasNoOuterSpace(cleaned);
    Strip(cleaned)
  }

  /** No line starts or ends with a fence, so StripLine leaves every line alone. */
  predicate FenceFree(lines: seq<string>)
  {
    forall k :: 0 <= k < |lines| ==> Unfenced(lines[k])
  }

  /** A line that neither starts nor ends with a fence. */
  predicate Unfenced(line: string)
  {
    !StartsWith(line, Fence) && !EndsWith(line, Fence)
  }

  /** Whitespace put in front of a line cannot make it start or end with a
      fence, since no whitespace character is a backtick. */
  lemma UnfencedCons(c: char, line: string)
    requires IsSpace(c) && Unfenced(line)
    ensures Unfenced([c] + line)
  {
    var x := [c] + line;
    assert c != '`';
    if |x| >= 3 {
      assert x[..3][0] == c;
    }
    if |line| >= 3 {
      assert x[|x| - 3..] == line[|line| - 3..];
    } else if |x| == 3 {
      assert x[|x| - 3..][0] == c;
    }
  }

  /** Whitespace put after a line cannot make it start or end with a fence. */
  lemma UnfencedSnoc(line: string, c: char)
    requires IsSpace(c) && Unfenced(line)
    ensures Unfenced(line + [c])
  {
    var x := line + [c];
    assert c != '`';
    if |x| >= 3 {
      assert x[|x| - 3..][2] == c;
    }
    if |line| >= 3 {
      assert x[..3] == line[..3];
    } else if |x| == 3 {
      assert x[..3][2] == c;
    }
  }

  /** Whitespace in front of a text whose lines are fence-free leaves them
      fence-free: it lands on the first line or forms lines of its own. */
  lemma {:induction false} FenceFreeLead(lead: string, s: string)
    requires AllSpace(lead) && FenceFree(Split(s))
    ensures FenceFree(Split(lead + s))
    decreases |lead|
  {
    if lead == [] {
      assert lead + s == s;
    } else {
      var rest := lead[1..];
      assert AllSpace(rest) by {
        forall k | 0 <= k < |rest| ensures IsSpace(rest[k]) { assert rest[k] == lead[k + 1]; }
      }
      FenceFreeLead(rest, s);
      var x := lead + s;
      assert x[0] == lead[0] && x[1..] == rest + s;
      var r := Split(rest + s);
      assert IsSpace(lead[0]);
      if lead[0] == '\n' {
        assert Split(x) == [""] + r;
        forall k | 0 <= k < |Split(x)| ensures Unfenced(Split(x)[k]) {
          if k > 0 { assert Split(x)[k] == r[k - 1]; }
        }
      } else {
        assert Split(x) == [[lead[0]] + r[0]] + r[1..];
        UnfencedCons(lead[0], r[0]);
        forall k | 0 <= k < |Split(x)| ensures Unfenced(Split(x)[k]) {
          if k > 0 { assert Split(x)[k] == r[k]; }
        }
      }
    }
  }

  /** Whitespace after a text whose lines are fence-free leaves them
      fence-free: it lands on the last line or forms lines of its own. */
  lemma {:induction false} FenceFreeTrail(s: string, trail: string)
    requires AllSpace(trail) && FenceFree(Split(s))
    ensures FenceFree(Split(s + trail))
    decreases |trail|
  {
    if trail == [] {
      assert s + trail == s;
    } else {
      var init := trail[..|trail| - 1];
      var c := trail[|trail| - 1];
      assert AllSpace(init) by {
        forall k | 0 <= k < |init| ensures IsSpace(init[k]) { assert init[k] == trail[k]; }
      }
      FenceFreeTrail(s, init);
      assert s + trail == (s + init) + [c];
      var lines := Split(s + init);
      var n := |lines|;
      if c == '\n' {
        SplitAround(s + init, "");
        assert (s + init) + "\n" + "" == s + trail;
        assert Split(s + trail) == lines + [""];
        forall k | 0 <= k < n + 1 ensures Unfenced(Split(s + trail)[k]) {
          if k < n { assert Split(s + trail)[k] == lines[k]; }
        }
      } else {
        SplitSnoc(s + init, c);
        UnfencedSnoc(lines[n - 1], c);
        assert Split(s + trail) == lines[..n - 1] + [lines[n - 1] + [c]];
        forall k | 0 <= k < n ensures Unfenced(Split(s + trail)[k]) {
          if k < n - 1 { assert Split(s + trail)[k] == lines[k]; }
        }
      }
    }
  }

  /** If the lines of the stripped text are fence-free, so are the lines of
      the text itself. */
  lemma FenceFreeUnstripped(body: string)
    requires FenceFree(Split(Strip(body)))
    ensures FenceFree(Split(body))
  {
    var i, j :| Trimmed(body, i, j) && Strip(body) == body[i..j];
    SpaceInSlice(body, 0, i);
    SpaceInSlice(body, j, |body|);
    SliceParts(body, i, j);
    FenceFreePadded(body[..i], body[i..j], body[j..]);
  }

  /** Whitespace added around a text without fenced lines adds none. */
  lemma FenceFreePadded(lead: string, core: string, trail: string)
    requires AllSpace(lead) && AllSpace(trail) && FenceFree(Split(core))
    ensures FenceFree(Split(lead + core + trail))
  {
    FenceFreeTrail(core, trail);
    FenceFreeLead(lead, core + trail);
    assert lead + (core + trail) == lead + core + trail;
  }

  /** The clean-up only deletes characters: it never lengthens the text. */
  lemma StripFencesNoLonger(text: string)
    ensures |StripFences(text)| <= |text|
  {
    var stripped := Strip(text);
    var lines := Split(stripped);
    var cleaned := Join(StripLines(lines));
    JoinNoLonger(StripLines(lines), lines);
    JoinSplit(stripped);
    assert |cleaned| <= |stripped|;
    StripNoLonger(text);
    StripNoLonger(cleaned);
  }

  /** When no line of the stripped text starts or ends with a fence, the
      clean-up is just `strip()`. */
  lemma StripFencesUnfenced(text: string)
    requires FenceFree(Split(Strip(text)))
    ensures StripFences(text) == Strip(text)
  {
    var lines := Split(Strip(text));
    assert StripLines(lines) == lines;
    JoinSplit(Strip(text));
    StripIdempotent(text);
  }

  /** A line of the stripped text that starts or ends with a fence shows
      that the text contains a fence. */
  lemma FencedLineInText(text: string, k: nat)
    requires k < |Split(Strip(text))|
    ensures var line := Split(Strip(text))[k];
      StartsWith(line, Fence) || EndsWith(line, Fence) ==> Contains(text, Fence)
  {
    var line := Split(Strip(text))[k];
    if StartsWith(line, Fence) || EndsWith(line, Fence) {
      ContainsEnds(line, Fence);
      SplitPieceContains(Strip(text), k, Fence);
      StripContains(text, Fence);
    }
  }

  /** What a line of a split contains, the split text contains. */
  lemma SplitPieceContains(s: string, k: nat, sub: string)
    requires k < |Split(s)| && Contains(Split(s)[k], sub)
    ensures Contains(s, sub)
  {
    var line := Split(s)[k];
    SplitPieceIsSlice(s, k);
    var a :| OccursAt(s, line, a);
    ContainsInSlice(s, a, a + |line|, sub);
  }

  /** What the stripped text contains, the text contains. */
  lemma StripContains(text: string, sub: string)
    requires Contains(Strip(text), sub)
    ensures Contains(text, sub)
  {
    var i := SkipSpace(text, 0);
    ContainsInSlice(text, i, SkipSpaceBack(text, i, |text|), sub);
  }

  /** A reply with no "```" anywhere is only stripped of surrounding whitespace. */
  lemma StripFencesNoFence(text: string)
    requires !Contains(text, Fence)
    ensures StripFences(text) == Strip(text)
  {
    forall k | 0 <= k < |Split(Strip(text))|
      ensures !StartsWith(Split(Strip(text))[k], Fence) && !EndsWith(Split(Strip(text))[k], Fence)
    {
      FencedLineInText(text, k);
    }
    StripFencesUnfenced(text);
  }

  /** What fences around a reply add to the clean-up: an opening fence
      ("```json" or a bare "```") on its own line and a closing "```" on its
      own line vanish, and the body's lines are cleaned as they stand, with
      the whitespace at the body's ends still in place while the regex runs. */
  lemma StripFencesWrappedAny(opening: string, body: string)
    requires opening == JsonFence || opening == Fence
    ensures StripFences(opening + "\n" + body + "\n" + Fence) == Strip(Join(StripLines(Split(body))))
  {
    var w := opening + "\n" + body + "\n" + Fence;
    var cleaned := StripLines(Split(body));
    calc {
      StripFences(w);
      Strip(Join(StripLines(Split(Strip(w)))));
      { WrappedNeedsNoStrip(opening, body); }
      Strip(Join(StripLines(Split(w))));
      { WrappedLinesCleaned(opening, body); }
      Strip(Join([""] + cleaned + [""]));
      { JoinBetweenNewlines(cleaned); }
      Strip("\n" + Join(cleaned) + "\n");
      { StripNewlinePadded(Join(cleaned)); }
      Strip(Join(cleaned));
    }
  }

  /** The reply shape the prompts ask for cleans up to the body, stripped,
      as long as no line of the body itself starts or ends with a fence. */
  lemma StripFencesWrapped(opening: string, body: string)
    requires opening == JsonFence || opening == Fence
    requires FenceFree(Split(body))
    ensures StripFences(opening + "\n" + body + "\n" + Fence) == Strip(body)
  {
    calc {
      StripFences(opening + "\n" + body + "\n" + Fence);
      { StripFencesWrappedAny(opening, body); }
      Strip(Join(StripLines(Split(body))));
      { FenceFreeUnchanged(Split(body)); }
      Strip(Join(Split(body)));
      { JoinSplit(body); }
      Strip(body);
    }
  }

  /** StripLine leaves fence-free lines as they are. */
  lemma FenceFreeUnchanged(lines: seq<string>)
    requires FenceFree(lines)
    ensures StripLines(lines) == lines
  {
  }

  lemma StripNewlinePadded(body: string)
    ensures Strip("\n" + body + "\n") == Strip(body)
  {
    assert AllSpace("\n");
    StripPadded("\n", body, "\n");
  }

  lemma WrappedNeedsNoStrip(opening: string, body: string)
    requires opening == JsonFence || opening == Fence
    ensures var w := opening + "\n" + body + "\n" + Fence; Strip(w) == w
  {
    var w := opening + "\n" + body + "\n" + Fence;
    assert w[0] == opening[0] == '`';
    assert w[|w| - 1] == Fence[2] == '`';
    assert Trimmed(w, 0, |w|);
    StripUnique(w, 0, |w|);
  }

  lemma BareFencesVanish()
    ensures StripLine(JsonFence) == "" && StripLine(Fence) == ""
  {
    assert StartsWith(JsonFence, JsonFence);
    assert JsonFence[|JsonFence|..] == "";
    assert !StartsWith(Fence, JsonFence);
    assert StartsWith(Fence, Fence);
    assert Fence[|Fence|..] == "";
  }

  lemma WrappedLinesCleaned(opening: string, body: string)
    requires opening == JsonFence || opening == Fence
    ensures StripLines(Split(opening + "\n" + body + "\n" + Fence)) == [""] + StripLines(Split(body)) + [""]
  {
    FencesHaveNoNewline();
    WrappedLines(opening, body, Fence);
    StripLinesAround(opening, Split(body), Fence);
    BareFencesVanish();
  }

  /** StripLine treats each line on its own, whatever surrounds it. */
  lemma StripLinesAround(first: string, lines: seq<string>, last: string)
    ensures StripLines([first] + lines + [last]) == [StripLine(first)] + StripLines(lines) + [StripLine(last)]
  {
    var all := [first] + lines + [last];
    forall k | 0 < k < |all| - 1 ensures all[k] == lines[k - 1] {
    }
  }

  lemma WrappedLines(opening: string, body: string, closing: string)
    requires '\n' !in opening && '\n' !in closing
    ensures Split(opening + "\n" + body + "\n" + closing) == [opening] + Split(body) + [closing]
  {
    var tail := body + "\n" + closing;
    calc {
      Split(opening + "\n" + body + "\n" + closing);
      { assert opening + "\n" + body + "\n" + closing == opening + "\n" + tail; }
      Split(opening + "\n" + tail);
      { SplitAround(opening, tail); }
      Split(opening) + Split(tail);
      { SplitAround(body, closing); SplitSingle(opening); SplitSingle(closing); }
      [opening] + (Split(body) + [closing]);
    }
  }

  lemma FencesHaveNoNewline()
    ensures '\n' !in JsonFence && '\n' !in Fence
  {
  }

  lemma JoinBetweenNewlines(lines: seq<string>)
    requires lines != []
    ensures Join([""] + lines + [""]) == "\n" + Join(lines) + "\n"
  {
    JoinAppend([""], lines + [""]);
    JoinAppend(lines, [""]);
    assert [""] + lines + [""] == [""] + (lines + [""]);
  }

  /** Wrapping a reply in fences does not change what the clean-up yields,
      provided no line of the stripped body starts or ends with a fence. */
  lemma StripFencesIgnoresWrapper(opening: string, body: string)
    requires opening == JsonFence || opening == Fence
    requires FenceFree(Split(Strip(body)))
    ensures StripFences(opening + "\n" + body + "\n" + Fence) == StripFences(body)
  {
    FenceFreeUnstripped(body);
    StripFencesWrapped(opening, body);
    StripFencesUnfenced(body);
  }

  /** A reply that opens with a fence line but never closes it cleans up as
      the reply without that line does, provided no line of the stripped
      reply starts or ends with a fence. */
  lemma StripFencesOpenedOnly(opening: string, body: string)
    requires opening == JsonFence || opening == Fence
    requires FenceFree(Split(Strip(body)))
    ensures StripFences(opening + "\n" + body) == StripFences(body)
  {
    StripFencesUnfenced(body);
    FenceLineFacts(opening);
    var i, j :| Trimmed(body, i, j) && Strip(body) == body[i..j];
    if i == j {
      OpenedBlank(opening, body, i);
    } else {
      OpenedNonBlank(opening, body, i, j);
    }
  }

  /** A reply that ends with a closing fence line it never opened cleans up
      as the reply without that line does, provided no line of the stripped
      reply starts or ends with a fence. */
  lemma StripFencesClosedOnly(body: string)
    requires FenceFree(Split(Strip(body)))
    ensures StripFences(body + "\n" + Fence) == StripFences(body)
  {
    StripFencesUnfenced(body);
    var i, j :| Trimmed(body, i, j) && Strip(body) == body[i..j];
    if i == j {
      ClosedBlank(body, i);
    } else {
      ClosedNonBlank(body, i, j);
    }
  }

  lemma OpenedBlank(opening: string, body: string, i: nat)
    requires opening == JsonFence || opening == Fence
    requires Trimmed(body, i, i)
    ensures StripFences(opening + "\n" + body) == "" == Strip(body)
  {
    FenceLineFacts(opening);
    OpenedBlankStrip(opening, body, i);
    LoneFenceVanishes(opening);
    StripUnique("", 0, 0);
    StripUnique(body, i, i);
  }

  lemma OpenedNonBlank(opening: string, body: string, i: nat, j: nat)
    requires opening == JsonFence || opening == Fence
    requires Trimmed(body, i, j) && i < j && FenceFree(Split(body[i..j]))
    ensures StripFences(opening + "\n" + body) == Strip(body)
  {
    FenceLineFacts(opening);
    var lead, core, trail := body[..i], body[i..j], body[j..];
    SpaceInSlice(body, 0, i);
    SpaceInSlice(body, j, |body|);
    SliceParts(body, i, j);
    calc {
      StripFences(opening + "\n" + body);
      Strip(Join(StripLines(Split(Strip(opening + "\n" + body)))));
      { OpenedStrip(opening, body, i, j); }
      Strip(Join(StripLines(Split(opening + "\n" + (lead + core)))));
      { OpenedLines(opening, lead, core); }
      Strip("\n" + (lead + core));
      { LeadPadded(lead, core, trail); }
      Strip(body);
    }
  }

  lemma ClosedBlank(body: string, i: nat)
    requires Trimmed(body, i, i)
    ensures StripFences(body + "\n" + Fence) == "" == Strip(body)
  {
    FenceLineFacts(Fence);
    ClosedBlankStrip(body, i);
    LoneFenceVanishes(Fence);
    StripUnique("", 0, 0);
    StripUnique(body, i, i);
  }

  lemma ClosedNonBlank(body: string, i: nat, j: nat)
    requires Trimmed(body, i, j) && i < j && FenceFree(Split(body[i..j]))
    ensures StripFences(body + "\n" + Fence) == Strip(body)
  {
    FenceLineFacts(Fence);
    var lead, core, trail := body[..i], body[i..j], body[j..];
    SpaceInSlice(body, 0, i);
    SpaceInSlice(body, j, |body|);
    SliceParts(body, i, j);
    calc {
      StripFences(body + "\n" + Fence);
      Strip(Join(StripLines(Split(Strip(body + "\n" + Fence)))));
      { ClosedStrip(body, i, j); }
      Strip(Join(StripLines(Split((core + trail) + "\n" + Fence))));
      { ClosedLines(core, trail, Fence); }
      Strip((core + trail) + "\n");
      { TrailPadded(lead, core, trail); }
      Strip(body);
    }
  }

  /** Each fence line is free of newlines and cleans up to nothing. */
  lemma FenceLineFacts(fence: string)
    requires fence == JsonFence || fence == Fence
    ensures '\n' !in fence && StripLine(fence) == ""
  {
    BareFencesVanish();
  }

  /** A line that cleans up to nothing, on its own, leaves nothing. */
  lemma LoneFenceVanishes(fence: string)
    requires '\n' !in fence && StripLine(fence) == ""
    ensures Join(StripLines(Split(fence))) == ""
  {
    SplitSingle(fence);
    assert StripLines([fence]) == [""];
  }

  /** After a line that cleans up to nothing, fence-free lines come out of
      the regex as they went in, behind the newline that line leaves. */
  lemma OpenedLines(opening: string, lead: string, core: string)
    requires '\n' !in opening && StripLine(opening) == ""
    requires AllSpace(lead) && FenceFree(Split(core))
    ensures Join(StripLines(Split(opening + "\n" + (lead + core)))) == "\n" + (lead + core)
  {
    var b := lead + core;
    FenceFreeLead(lead, core);
    calc {
      Join(StripLines(Split(opening + "\n" + b)));
      { SplitBehindLine(opening, b); }
      Join(StripLines([opening] + Split(b)));
      { StripLinesFirst(opening, Split(b)); }
      Join([""] + Split(b));
      { JoinBehindEmpty(b); }
      "\n" + b;
    }
  }

  /** Before a line that cleans up to nothing, fence-free lines come out of
      the regex as they went in, ahead of the newline that line leaves. */
  lemma ClosedLines(core: string, trail: string, closing: string)
    requires '\n' !in closing && StripLine(closing) == ""
    requires AllSpace(trail) && FenceFree(Split(core))
    ensures Join(StripLines(Split((core + trail) + "\n" + closing))) == (core + trail) + "\n"
  {
    var b := core + trail;
    FenceFreeTrail(core, trail);
    calc {
      Join(StripLines(Split(b + "\n" + closing)));
      { SplitAheadOfLine(b, closing); }
      Join(StripLines(Split(b) + [closing]));
      { StripLinesLast(Split(b), closing); }
      Join(Split(b) + [""]);
      { JoinAheadOfEmpty(b); }
      b + "\n";
    }
  }

  lemma SplitBehindLine(line: string, b: string)
    requires '\n' !in line
    ensures Split(line + "\n" + b) == [line] + Split(b)
  {
    SplitAround(line, b);
    SplitSingle(line);
  }

  lemma SplitAheadOfLine(b: string, line: string)
    requires '\n' !in line
    ensures Split(b + "\n" + line) == Split(b) + [line]
  {
    SplitAround(b, line);
    SplitSingle(line);
  }

  lemma JoinBehindEmpty(b: string)
    ensures Join([""] + Split(b)) == "\n" + b
  {
    JoinAppend([""], Split(b));
    JoinSplit(b);
  }

  lemma JoinAheadOfEmpty(b: string)
    ensures Join(Split(b) + [""]) == b + "\n"
  {
    JoinAppend(Split(b), [""]);
    JoinSplit(b);
  }

  lemma LeadPadded(lead: string, core: string, trail: string)
    requires AllSpace(lead) && AllSpace(trail)
    ensures Strip("\n" + (lead + core)) == Strip(lead + core + trail)
  {
    AllSpaceAppend("\n", lead);
    assert "\n" + (lead + core) == ("\n" + lead) + core + "";
    StripPadded("\n" + lead, core, "");
    StripPadded(lead, core, trail);
  }

  lemma TrailPadded(lead: string, core: string, trail: string)
    requires AllSpace(lead) && AllSpace(trail)
    ensures Strip((core + trail) + "\n") == Strip(lead + core + trail)
  {
    AllSpaceAppend(trail, "\n");
    assert (core + trail) + "\n" == "" + core + (trail + "\n");
    StripPadded("", core, trail + "\n");
    StripPadded(lead, core, trail);
  }

  lemma StripLinesFirst(first: string, lines: seq<string>)
    requires FenceFree(lines)
    ensures StripLines([first] + lines) == [StripLine(first)] + lines
  {
    var all := [first] + lines;
    forall k | 0 < k < |all| ensures all[k] == lines[k - 1] {
    }
  }

  lemma StripLinesLast(lines: seq<string>, last: string)
    requires FenceFree(lines)
    ensures StripLines(lines + [last]) == lines + [StripLine(last)]
  {
    var all := lines + [last];
    forall k | 0 <= k < |lines| ensures all[k] == lines[k] {
    }
  }

  /** With text after the opening line, `strip()` keeps the opening line and
      cuts only the whitespace that ends the reply. */
  lemma OpenedStrip(opening: string, body: string, i: nat, j: nat)
    requires opening == JsonFence || opening == Fence
    requires Trimmed(body, i, j) && i < j
    ensures Strip(opening + "\n" + body) == opening + "\n" + body[..j]
  {
    var w := opening + "\n" + body;
    var n := |opening| + 1;
    forall k | n + j <= k < |w| ensures IsSpace(w[k]) {
      assert w[k] == body[k - n];
    }
    assert w[0] == '`';
    assert w[n + j - 1] == body[j - 1];
    assert Trimmed(w, 0, n + j);
    StripUnique(w, 0, n + j);
    assert w[..n + j] == opening + "\n" + body[..j];
  }

  /** With only whitespace after it, the opening line is all that `strip()`
      keeps. */
  lemma OpenedBlankStrip(opening: string, body: string, i: nat)
    requires opening == JsonFence || opening == Fence
    requires Trimmed(body, i, i)
    ensures Strip(opening + "\n" + body) == opening
  {
    var w := opening + "\n" + body;
    var n := |opening| + 1;
    forall k | n - 1 <= k < |w| ensures IsSpace(w[k]) {
      if k >= n { assert w[k] == body[k - n]; }
    }
    assert w[0] == '`';
    assert w[n - 2] == opening[|opening| - 1];
    assert Trimmed(w, 0, n - 1);
    StripUnique(w, 0, n - 1);
    assert w[..n - 1] == opening;
  }

  /** With text before the closing line, `strip()` keeps the closing line and
      cuts only the whitespace that starts the reply. */
  lemma ClosedStrip(body: string, i: nat, j: nat)
    requires Trimmed(body, i, j) && i < j
    ensures Strip(body + "\n" + Fence) == body[i..] + "\n" + Fence
  {
    var w := body + "\n" + Fence;
    forall k | 0 <= k < i ensures IsSpace(w[k]) {
      assert w[k] == body[k];
    }
    assert w[i] == body[i];
    assert w[|w| - 1] == '`';
    assert Trimmed(w, i, |w|);
    StripUnique(w, i, |w|);
    assert w[i..] == body[i..] + "\n" + Fence;
  }

  /** With only whitespace before it, the closing line is all that `strip()`
      keeps. */
  lemma ClosedBlankStrip(body: string, i: nat)
    requires Trimmed(body, i, i)
    ensures Strip(body + "\n" + Fence) == Fence
  {
    var w := body + "\n" + Fence;
    var n := |body| + 1;
    forall k | 0 <= k < n ensures IsSpace(w[k]) {
      if k < |body| { assert w[k] == body[k]; }
    }
    assert w[n] == '`';
    assert w[|w| - 1] == '`';
    assert Trimmed(w, n, |w|);
    StripUnique(w, n, |w|);
    assert w[n..] == Fence;
  }
}
