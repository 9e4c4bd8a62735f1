/** The cast segment formatter (`createMessages`): a pluralised header,
    then one line per rename, packed greedily and in order into casts of
    fewer than `CastLimit` characters.
 */
module Formatter {
  import opened Decimal
  import opened AppTypes

  /** Farcaster's per-cast character limit, as the source hard-codes it. */
  const CastLimit: nat := 320

  const SingularTail: string := " new user has joined the .eth family!\n"
  const PluralTail: string := " new users have joined the .eth family!\n"

  /** `createFirstLineText`: the count, then the singular phrase unless the
      count exceeds one (a count of zero reads "0 new user has ..."). */
  function FirstLineText(numUsers: nat): (s: string)
    ensures |NatToString(numUsers)| < |s|
    ensures s[..|NatToString(numUsers)|] == NatToString(numUsers)
    ensures numUsers > 1 ==> s[|NatToString(numUsers)|..] == PluralTail
    ensures numUsers <= 1 ==> s[|NatToString(numUsers)|..] == SingularTail
    ensures |s| < CastLimit <==> |NatToString(numUsers)| < 280 + (if numUsers > 1 then 0 else 2)
  {
    NatToString(numUsers) + (if numUsers > 1 then PluralTail else SingularTail)
  }

  /** `createUsernameChangeText`: one line announcing one rename. */
  function ChangeLine(c: UsernameHistory): (s: string)
    ensures |s| == |c.prevUsername| + |c.newUsername| + 14
    ensures s[0] == '@' && s[|s| - 1] == '\n'
    ensures s[1..1 + |c.prevUsername|] == c.prevUsername
    ensures s[1 + |c.prevUsername|..13 + |c.prevUsername|] == " changed to "
    ensures s[13 + |c.prevUsername|..|s| - 1] == c.newUsername
  {
    "@" + c.prevUsername + " changed to " + c.newUsername + "\n"
  }

  /** The rendered lines of a list of renames, in the same order. */
  function Lines(changes: seq<UsernameHistory>): seq<string>
  {
    seq(|changes|, k requires 0 <= k < |changes| => ChangeLine(changes[k]))
  }

  /** The concatenation of a list of strings, in order. */
  function Flatten(ss: seq<string>): string
  {
    if |ss| == 0 then "" else Flatten(ss[..|ss| - 1]) + ss[|ss| - 1]
  }

  /** One step of the packing loop: the line joins the last cast when the
      sum of their lengths stays below the limit, else it opens a new cast. */
  function Step(segs: seq<string>, line: string): (r: seq<string>)
    requires |segs| > 0
    ensures |r| == |segs| || |r| == |segs| + 1
    ensures r[..|segs| - 1] == segs[..|segs| - 1]
    ensures |r| == |segs| <==> |segs[|segs| - 1]| + |line| < CastLimit
    ensures |r| == |segs| ==> r[|segs| - 1] == segs[|segs| - 1] + line
    ensures |r| == |segs| + 1 ==> r[..|segs|] == segs && r[|segs|] == line
  {
    var last := |segs| - 1;
    if |segs[last]| + |line| < CastLimit then segs[..last] + [segs[last] + line]
    else segs + [line]
  }

  /** The packing loop over all lines, in order. */
  function Pack(segs: seq<string>, lines: seq<string>): (r: seq<string>)
    requires |segs| > 0
    ensures |segs| <= |r| <= |segs| + |lines|
    ensures r[..|segs| - 1] == segs[..|segs| - 1]
    decreases |lines|
  {
    if |lines| == 0 then segs
    else
      var next := Step(segs, lines[0]);
      var r := Pack(next, lines[1..]);
      assert r[..|segs| - 1] == r[..|next| - 1][..|segs| - 1];
      r
  }

  /** `createMessages`: the header seeds the first cast, then every line
      is packed.  The result is never empty, has at most one cast per
      line beyond the first, and the first cast starts with the header. */
  function CreateMessages(changes: seq<UsernameHistory>): (r: seq<string>)
    ensures 1 <= |r| <= |changes| + 1
    ensures |FirstLineText(|changes|)| <= |r[0]|
    ensures r[0][..|FirstLineText(|changes|)|] == FirstLineText(|changes|)
  {
    var header := FirstLineText(|changes|);
    var r := Pack([header], Lines(changes));
    PackKeepsFirstPrefix([header], Lines(changes));
    r
  }

  /** Packing only ever extends the first cast. */
  lemma {:induction false} PackKeepsFirstPrefix(segs: seq<string>, lines: seq<string>)
    requires |segs| > 0
    ensures |segs[0]| <= |Pack(segs, lines)[0]|
    ensures Pack(segs, lines)[0][..|segs[0]|] == segs[0]
    decreases |lines|
  {
    if |lines| > 0 {
      var next := Step(segs, lines[0]);
      PackKeepsFirstPrefix(next, lines[1..]);
    }
  }

  lemma FlattenSnoc(ss: seq<string>, x: string)
    ensures Flatten(ss + [x]) == Flatten(ss) + x
  {
    assert (ss + [x])[..|ss|] == ss;
  }

  lemma FlattenSingleton(x: string)
    ensures Flatten([x]) == x
  {
    assert [x][..0] == [];
  }

  lemma {:induction false} FlattenAppend(a: seq<string>, b: seq<string>)
    ensures Flatten(a + b) == Flatten(a) + Flatten(b)
    decreases |b|
  {
    if |b| == 0 {
      assert a + b == a;
    } else {
      var b' := b[..|b| - 1];
      assert a + b == (a + b') + [b[|b| - 1]];
      FlattenSnoc(a + b', b[|b| - 1]);
      FlattenSnoc(b', b[|b| - 1]);
      assert b == b' + [b[|b| - 1]];
      FlattenAppend(a, b');
    }
  }

  lemma StepJoinFlatten(segs: seq<string>, line: string)
    requires |segs| > 0 && |segs[|segs| - 1]| + |line| < CastLimit
    ensures Flatten(Step(segs, line)) == Flatten(segs) + line
  {
    var last := |segs| - 1;
    var init := segs[..last];
    assert segs == init + [segs[last]];
    FlattenSnoc(init, segs[last]);
    assert Step(segs, line) == init + [segs[last] + line];
    FlattenSnoc(init, segs[last] + line);
  }

  lemma StepOpenFlatten(segs: seq<string>, line: string)
    requires |segs| > 0 && |segs[|segs| - 1]| + |line| >= CastLimit
    ensures Flatten(Step(segs, line)) == Flatten(segs) + line
  {
    assert Step(segs, line) == segs + [line];
    FlattenSnoc(segs, line);
  }

  /** A packing step loses, duplicates and reorders nothing: the line
      lands at the very end of the text. */
  lemma StepFlatten(segs: seq<string>, line: string)
    requires |segs| > 0
    ensures Flatten(Step(segs, line)) == Flatten(segs) + line
  {
    if |segs[|segs| - 1]| + |line| < CastLimit {
      StepJoinFlatten(segs, line);
    } else {
      StepOpenFlatten(segs, line);
    }
  }

  /** Order preservation of the whole packing loop. */
  lemma {:induction false} PackFlatten(segs: seq<string>, lines: seq<string>)
    requires |segs| > 0
    ensures Flatten(Pack(segs, lines)) == Flatten(segs) + Flatten(lines)
    decreases |lines|
  {
    if |lines| > 0 {
      StepFlatten(segs, lines[0]);
      PackFlatten(Step(segs, lines[0]), lines[1..]);
      assert lines == [lines[0]] + lines[1..];
      FlattenAppend([lines[0]], lines[1..]);
      FlattenSingleton(lines[0]);
    }
  }

  /** Reading the casts one after another gives back the header followed
      by one line per rename in input order: no line is dropped,
      reordered or split across casts. */
  lemma CreateMessagesPreservesOrder(changes: seq<UsernameHistory>)
    ensures Flatten(CreateMessages(changes)) == FirstLineText(|changes|) + Flatten(Lines(changes))
  {
    var header := FirstLineText(|changes|);
    assert CreateMessages(changes) == Pack([header], Lines(changes));
    PackFlatten([header], Lines(changes));
    FlattenSingleton(header);
  }

  /** The packing loop seen from its end: packing one more line is one
      more step on the casts packed so far.  This is the source's loop
      body, applied to the last line. */
  lemma {:induction false} PackSnoc(segs: seq<string>, lines: seq<string>, line: string)
    requires |segs| > 0
    ensures Pack(segs, lines + [line]) == Step(Pack(segs, lines), line)
    decreases |lines|
  {
    if |lines| == 0 {
      assert ([] + [line])[1..] == [];
    } else {
      assert (lines + [line])[0] == lines[0];
      assert (lines + [line])[1..] == lines[1..] + [line];
      PackSnoc(Step(segs, lines[0]), lines[1..], line);
    }
  }

  predicate WithinLimit(ss: seq<string>) {
    forall k :: 0 <= k < |ss| ==> 0 < |ss[k]| < CastLimit
  }

  /** Every cast stays non-empty and under the limit, provided every
      seed cast and every single line already is: the source never
      splits or rejects an over-long line. */
  lemma {:induction false} PackWithinLimit(segs: seq<string>, lines: seq<string>)
    requires |segs| > 0
    requires WithinLimit(segs) && WithinLimit(lines)
    ensures WithinLimit(Pack(segs, lines))
    decreases |lines|
  {
    if |lines| > 0 {
      assert 0 < |lines[0]| < CastLimit;
      var next := Step(segs, lines[0]);
      assert WithinLimit(next);
      assert WithinLimit(lines[1..]) by {
        forall k | 0 <= k < |lines[1..]| ensures 0 < |lines[1..][k]| < CastLimit {
          assert lines[1..][k] == lines[k + 1];
        }
      }
      PackWithinLimit(next, lines[1..]);
    }
  }

  /** The formatter's bound: with a header and lines that each fit, every
      cast it produces is non-empty and under 320 characters. */
  lemma CreateMessagesWithinLimit(changes: seq<UsernameHistory>)
    requires |FirstLineText(|changes|)| < CastLimit
    requires forall k :: 0 <= k < |changes| ==> |ChangeLine(changes[k])| < CastLimit
    ensures WithinLimit(CreateMessages(changes))
  {
    PackWithinLimit([FirstLineText(|changes|)], Lines(changes));
  }

  /** Greedy packing: from the last seed cast on, no two neighbouring
      casts would have fitted into one. */
  predicate Saturated(ss: seq<string>, from: nat) {
    forall k :: from <= k && k + 1 < |ss| ==> |ss[k]| + |ss[k + 1]| >= CastLimit
  }

  lemma {:induction false} PackSaturated(segs: seq<string>, lines: seq<string>)
    requires |segs| > 0 && Saturated(segs, |segs| - 1)
    ensures Saturated(Pack(segs, lines), |segs| - 1)
    decreases |lines|
  {
    if |lines| > 0 {
      var next := Step(segs, lines[0]);
      assert Saturated(next, |next| - 1);
      PackSaturated(next, lines[1..]);
      var r := Pack(segs, lines);
      forall k | |segs| - 1 <= k && k + 1 < |r|
        ensures |r[k]| + |r[k + 1]| >= CastLimit
      {
        if k < |next| - 1 {
          // k is the last seed cast and a new cast was opened after it
          assert |next| == |segs| + 1 && k == |segs| - 1;
          PackKeepsPrefixFrom(next, lines[1..], k);
        }
      }
    }
  }

  /** A cast that is no longer the last one is never touched again, and
      the last one only grows. */
  lemma {:induction false} PackKeepsPrefixFrom(segs: seq<string>, lines: seq<string>, k: nat)
    requires k + 1 < |segs|
    ensures Pack(segs, lines)[k] == segs[k]
    ensures |Pack(segs, lines)[|segs| - 1]| >= |segs[|segs| - 1]|
    decreases |lines|
  {
    if |lines| > 0 {
      PackKeepsPrefixFrom(Step(segs, lines[0]), lines[1..], k);
    }
  }

  /** No two neighbouring casts produced by the formatter could have been
      merged without reaching the limit. */
  lemma CreateMessagesSaturated(changes: seq<UsernameHistory>)
    ensures Saturated(CreateMessages(changes), 0)
  {
    PackSaturated([FirstLineText(|changes|)], Lines(changes));
  }

  /** When the header and the lines together reach the limit, the
      announcement is split over at least two casts. */
  lemma SplitWhenOverLimit(changes: seq<UsernameHistory>)
    requires |changes| > 0
    requires |FirstLineText(|changes|) + Flatten(Lines(changes))| >= CastLimit
    ensures |CreateMessages(changes)| >= 2
  {
    var header := FirstLineText(|changes|);
    var lines := Lines(changes);
    var n := |lines| - 1;
    assert lines == lines[..n] + [lines[n]];
    PackSnoc([header], lines[..n], lines[n]);
    var before := Pack([header], lines[..n]);
    var r := CreateMessages(changes);
    assert r == Step(before, lines[n]);
    CreateMessagesPreservesOrder(changes);
    FlattenOfOne(r);
    StepOneFits(before, lines[n]);
  }

  lemma FlattenOfOne(r: seq<string>)
    requires |r| > 0
    ensures |r| == 1 ==> Flatten(r) == r[0]
  {
    assert r[..|r| - 1] == [] <== |r| == 1;
  }

  /** A step that leaves a single cast leaves one under the limit. */
  lemma StepOneFits(segs: seq<string>, line: string)
    requires |segs| > 0
    ensures |Step(segs, line)| == 1 ==> |Step(segs, line)[0]| < CastLimit
  {
  }

  /** Every cast the formatter produces ends with a line break. */
  lemma EveryCastEndsWithNewline(changes: seq<UsernameHistory>)
    ensures forall k :: 0 <= k < |CreateMessages(changes)| ==>
              |CreateMessages(changes)[k]| > 0 && CreateMessages(changes)[k][|CreateMessages(changes)[k]| - 1] == '\n'
  {
    PackEndsWithNewline([FirstLineText(|changes|)], Lines(changes));
  }

  /** Every string of the list is non-empty and ends with a line break. */
  predicate EndsWithNewline(ss: seq<string>) {
    forall k :: 0 <= k < |ss| ==> |ss[k]| > 0 && ss[k][|ss[k]| - 1] == '\n'
  }

  lemma {:induction false} PackEndsWithNewline(segs: seq<string>, lines: seq<string>)
    requires |segs| > 0 && EndsWithNewline(segs) && EndsWithNewline(lines)
    ensures EndsWithNewline(Pack(segs, lines))
    decreases |lines|
  {
    if |lines| > 0 {
      var next := Step(segs, lines[0]);
      assert |lines[0]| > 0 && lines[0][|lines[0]| - 1] == '\n';
      assert EndsWithNewline(next);
      assert EndsWithNewline(lines[1..]) by {
        forall k | 0 <= k < |lines[1..]| ensures |lines[1..][k]| > 0 && lines[1..][k][|lines[1..][k]| - 1] == '\n' {
          assert lines[1..][k] == lines[k + 1];
        }
      }
      PackEndsWithNewline(next, lines[1..]);
    }
  }

  /** `cuts` are strictly increasing positions in a list of `n` lines,
      ending at `n`. */
  predicate CutsCover(cuts: seq<nat>, n: nat) {
    && |cuts| > 0
    && (forall j :: 0 <= j < |cuts| ==> cuts[j] <= n)
    && (forall j :: 0 < j < |cuts| ==> cuts[j - 1] < cuts[j])
    && cuts[|cuts| - 1] == n
  }

  /** The casts `r` are the seed casts with `lines` packed in as whole
      lines.  The seed casts before the last are kept.  The last seed
      cast is extended by the first `cuts[0]` lines.  Every later cast is
      exactly the lines from one cut to the next, at least one of them.
      The last cut is the number of lines, so every line is used once. */
  predicate WholeLines(seed: seq<string>, lines: seq<string>, r: seq<string>, cuts: seq<nat>)
    requires |seed| > 0
  {
    && |r| >= |seed|
    && |cuts| == |r| - |seed| + 1
    && CutsCover(cuts, |lines|)
    && r[..|seed| - 1] == seed[..|seed| - 1]
    && r[|seed| - 1] == seed[|seed| - 1] + Flatten(lines[..cuts[0]])
    && (forall j :: 0 < j < |cuts| ==> r[|seed| - 1 + j] == Flatten(lines[cuts[j - 1]..cuts[j]]))
  }

  /** Where the packing loop cuts the lines into casts, built one line at
      a time as the loop does: a joined line moves the last cut, an
      opened cast adds one. */
  function PackCuts(seed: seq<string>, lines: seq<string>): seq<nat>
    requires |seed| > 0
    decreases |lines|
  {
    if |lines| == 0 then [0]
    else
      var n := |lines| - 1;
      var cuts := PackCuts(seed, lines[..n]);
      var before := Pack(seed, lines[..n]);
      NextCuts(cuts, before, lines[n], |lines|)
  }

  /** The cuts after packing one more line, the `n`-th counting from one:
      a joined line moves the last cut to `n`, an opened cast adds `n`. */
  function NextCuts(cuts: seq<nat>, before: seq<string>, line: string, n: nat): seq<nat>
  {
    if |cuts| == 0 then [n]
    else if |before| > 0 && |Step(before, line)| == |before| then cuts[..|cuts| - 1] + [n]
    else cuts + [n]
  }

  lemma JoinCuts(cuts: seq<nat>, n: nat)
    requires CutsCover(cuts, n)
    ensures CutsCover(cuts[..|cuts| - 1] + [n + 1], n + 1)
  {
    var cuts' := cuts[..|cuts| - 1] + [n + 1];
    forall j | 0 < j < |cuts'| ensures cuts'[j - 1] < cuts'[j] {
      assert cuts[j - 1] < cuts[j];
    }
  }

  lemma OpenCuts(cuts: seq<nat>, n: nat)
    requires CutsCover(cuts, n)
    ensures CutsCover(cuts + [n + 1], n + 1)
  {
  }

  /** Joining a line to the last cast keeps the casts made of whole
      lines: `r` is `before` with the line appended to its last cast. */
  lemma JoinKeepsWholeLines(seed: seq<string>, prev: seq<string>, line: string,
                            before: seq<string>, cuts: seq<nat>, r: seq<string>)
    requires |seed| > 0 && WholeLines(seed, prev, before, cuts)
    requires |r| == |before| && r[..|r| - 1] == before[..|r| - 1] && r[|r| - 1] == before[|r| - 1] + line
    ensures WholeLines(seed, prev + [line], r, cuts[..|cuts| - 1] + [|prev| + 1])
  {
    var s := |seed| - 1;
    JoinCuts(cuts, |prev|);
    assert r[..s] == seed[..s] by {
      assert r[..s] == r[..|r| - 1][..s];
      assert before[..s] == before[..|r| - 1][..s];
    }
    if |cuts| == 1 {
      JoinIntoSeedCast(seed, prev, line, before, cuts, r);
    } else {
      JoinIntoLaterCast(seed, prev, line, before, cuts, r);
    }
  }

  /** The joined cast is the last seed cast: it gains the line. */
  lemma JoinIntoSeedCast(seed: seq<string>, prev: seq<string>, line: string,
                         before: seq<string>, cuts: seq<nat>, r: seq<string>)
    requires |seed| > 0 && WholeLines(seed, prev, before, cuts) && |cuts| == 1
    requires |r| == |before| && r[|r| - 1] == before[|r| - 1] + line
    ensures r[|seed| - 1] == seed[|seed| - 1] + Flatten((prev + [line])[..|prev| + 1])
  {
    JoinedLastCast(prev, line, 0);
    assert prev[..cuts[0]] == prev[0..];
    assert (prev + [line])[..|prev| + 1] == (prev + [line])[0..|prev| + 1];
  }

  /** The joined cast was opened after the seed: the first seed-extending
      run and the runs before the last are unchanged, the last run gains
      the line. */
  lemma JoinIntoLaterCast(seed: seq<string>, prev: seq<string>, line: string,
                          before: seq<string>, cuts: seq<nat>, r: seq<string>)
    requires |seed| > 0 && WholeLines(seed, prev, before, cuts) && |cuts| > 1
    requires |r| == |before| && r[..|r| - 1] == before[..|r| - 1] && r[|r| - 1] == before[|r| - 1] + line
    ensures var lines, cuts' := prev + [line], cuts[..|cuts| - 1] + [|prev| + 1];
            && r[|seed| - 1] == seed[|seed| - 1] + Flatten(lines[..cuts'[0]])
            && forall j :: 0 < j < |cuts'| ==> r[|seed| - 1 + j] == Flatten(lines[cuts'[j - 1]..cuts'[j]])
  {
    var lines := prev + [line];
    var m := |cuts|;
    var cuts' := cuts[..m - 1] + [|prev| + 1];
    var s := |seed| - 1;
    var last := |r| - 1;
    JoinedLastCast(prev, line, cuts[m - 2]);
    assert prev[cuts[m - 2]..cuts[m - 1]] == prev[cuts[m - 2]..];
    assert r[s + m - 1] == Flatten(lines[cuts'[m - 2]..cuts'[m - 1]]);
    assert r[s] == r[..last][s] == before[s];
    assert lines[..cuts[0]] == prev[..cuts[0]];
    forall j | 0 < j < m - 1
      ensures r[s + j] == Flatten(lines[cuts'[j - 1]..cuts'[j]])
    {
      assert r[s + j] == r[..last][s + j] == before[s + j];
      assert lines[cuts[j - 1]..cuts[j]] == prev[cuts[j - 1]..cuts[j]];
    }
  }

  /** Appending a line to the lines from `a` on appends it to their text. */
  lemma JoinedLastCast(prev: seq<string>, line: string, a: nat)
    requires a <= |prev|
    ensures Flatten((prev + [line])[a..|prev| + 1]) == Flatten(prev[a..]) + line
  {
    assert (prev + [line])[a..|prev| + 1] == prev[a..] + [line];
    FlattenSnoc(prev[a..], line);
  }

  /** Opening a new cast with a line keeps the casts made of whole lines:
      `r` is `before` with one more cast holding just the line. */
  lemma OpenKeepsWholeLines(seed: seq<string>, prev: seq<string>, line: string,
                            before: seq<string>, cuts: seq<nat>, r: seq<string>)
    requires |seed| > 0 && WholeLines(seed, prev, before, cuts)
    requires r == before + [line]
    ensures WholeLines(seed, prev + [line], r, cuts + [|prev| + 1])
  {
    var lines := prev + [line];
    var s := |seed| - 1;
    OpenCuts(cuts, |prev|);
    assert r[..s] == before[..s];
    assert lines[|prev|..|prev| + 1] == [line];
    FlattenSingleton(line);
    assert lines[..cuts[0]] == prev[..cuts[0]];
    forall j | 0 < j < |cuts|
      ensures r[s + j] == Flatten(lines[cuts[j - 1]..cuts[j]])
    {
      assert lines[cuts[j - 1]..cuts[j]] == prev[cuts[j - 1]..cuts[j]];
    }
  }

  /** One packing step keeps the casts made of whole lines. */
  lemma StepKeepsWholeLines(seed: seq<string>, prev: seq<string>, line: string,
                            before: seq<string>, cuts: seq<nat>)
    requires |seed| > 0 && WholeLines(seed, prev, before, cuts)
    ensures WholeLines(seed, prev + [line], Step(before, line), NextCuts(cuts, before, line, |prev| + 1))
  {
    var r := Step(before, line);
    if |r| == |before| {
      JoinKeepsWholeLines(seed, prev, line, before, cuts, r);
    } else {
      OpenKeepsWholeLines(seed, prev, line, before, cuts, r);
    }
  }

  /** No cast boundary falls inside a line: the packed casts are the seed
      casts with whole lines appended to the last one and whole lines
      filling every further cast, in order. */
  lemma {:induction false} PackWholeLines(seed: seq<string>, lines: seq<string>)
    requires |seed| > 0
    ensures WholeLines(seed, lines, Pack(seed, lines), PackCuts(seed, lines))
    decreases |lines|
  {
    if |lines| == 0 {
      assert lines[..0] == [];
      assert Flatten([]) == "";
      assert seed[|seed| - 1] + "" == seed[|seed| - 1];
    } else {
      var n := |lines| - 1;
      var prev := lines[..n];
      var line := lines[n];
      assert lines == prev + [line];
      PackWholeLines(seed, prev);
      PackSnoc(seed, prev, line);
      var before := Pack(seed, prev);
      var cuts := PackCuts(seed, prev);
      StepKeepsWholeLines(seed, prev, line, before, cuts);
      assert Pack(seed, lines) == Step(before, line);
      assert PackCuts(seed, lines) == NextCuts(cuts, before, line, |lines|);
    }
  }

  /** The formatter never splits a line: its first cast is the header
      followed by whole rename lines, and every further cast is one or
      more whole rename lines, all in input order. */
  lemma CreateMessagesWholeLines(changes: seq<UsernameHistory>)
    ensures WholeLines([FirstLineText(|changes|)], Lines(changes), CreateMessages(changes),
                       PackCuts([FirstLineText(|changes|)], Lines(changes)))
  {
    PackWholeLines([FirstLineText(|changes|)], Lines(changes));
  }
}
