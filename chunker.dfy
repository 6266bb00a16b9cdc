/**
 * The first half of `generate_summary`: each message with text becomes one
 * line `"[HH:MM] user: text"`, and the lines are packed greedily, in order,
 * into blocks whose estimated token cost stays under a fixed ceiling.
 */
module Chunker {
  import opened Text
  import opened Store

  /** Ceiling of a block's estimated cost. */
  const BlockCeiling: int := 3000

  // ---------------------------------------------------------------------
  // Line builder
  // ---------------------------------------------------------------------

  /** The decimal digit character for `n`. */
  function Digit(n: nat): char
    requires n < 10
  {
    ('0' as int + n) as char
  }

  /** The value of a decimal digit character. */
  function DigitValue(c: char): int
  {
    c as int - '0' as int
  }

  function TwoDigits(n: nat): (r: string)
    requires n < 100
    ensures |r| == 2
  {
    [Digit(n / 10), Digit(n % 10)]
  }

  /**
   * `timestamp.strftime('%H:%M')` of a Telegram date (timezone-aware UTC):
   * hour of the day and minute of the hour, two digits each.
   */
  function ClockLabel(ts: int): (r: string)
    ensures |r| == 5 && r[2] == ':'
    ensures r[..2] == TwoDigits((ts / SecondsPerHour) % 24) && r[3..] == TwoDigits((ts / 60) % 60)
  {
    TwoDigits((ts / SecondsPerHour) % 24) + ":" + TwoDigits((ts / 60) % 60)
  }

  /** Reads an `HH:MM` label back as minutes since midnight. */
  function ClockMinutes(clock: string): int
    requires |clock| == 5
  {
    (10 * DigitValue(clock[0]) + DigitValue(clock[1])) * 60 + 10 * DigitValue(clock[3]) + DigitValue(clock[4])
  }

  lemma TwoDigitsValue(n: nat)
    requires n < 100
    ensures 10 * DigitValue(TwoDigits(n)[0]) + DigitValue(TwoDigits(n)[1]) == n
  {
  }

  /** The label is the time of day of the timestamp, to the minute. */
  lemma ClockLabelReadsBack(ts: int)
    ensures ClockMinutes(ClockLabel(ts)) == (ts / 60) % 1440
  {
    var q := ts / 60;
    var p := q / 60;
    var h := (ts / SecondsPerHour) % 24;
    var m := q % 60;
    var r := ClockLabel(ts);
    assert ts == 3600 * p + 60 * m + ts % 60;
    assert ts / 3600 == p;
    TwoDigitsValue(h);
    TwoDigitsValue(m);
    assert r[0] == r[..2][0] && r[1] == r[..2][1];
    assert r[3] == r[3..][0] && r[4] == r[3..][1];
    assert ClockMinutes(r) == 60 * h + m;
    assert q == 1440 * (p / 24) + 60 * (p % 24) + m;
  }

  /** A message takes part in the summary when its stripped text is not empty. */
  predicate HasText(m: Msg)
  {
    Trim(m.text) != ""
  }

  /** A message contributes a line exactly when its text has a non-whitespace character. */
  lemma HasTextIff(m: Msg)
    ensures HasText(m) <==> !AllSpace(m.text)
  {
    TrimEmptyIff(m.text);
  }

  /** `f"[{HH:MM}] {user}: {txt}"` with `txt` the stripped text. */
  function FormatLine(m: Msg): string
  {
    "[" + ClockLabel(m.timestamp) + "] " + m.user + ": " + Trim(m.text)
  }

  /** The lines built from `msgs`, oldest first. */
  function LinesOf(msgs: seq<Msg>): (r: seq<string>)
    ensures |r| <= |msgs|
  {
    if msgs == [] then [] else LinesOf(msgs[..|msgs| - 1]) + LineFor(msgs[|msgs| - 1])
  }

  /** No line is built exactly when no message has text. */
  lemma {:induction false} LinesOfEmptyIff(msgs: seq<Msg>)
    ensures LinesOf(msgs) == [] <==> forall i :: 0 <= i < |msgs| ==> !HasText(msgs[i])
  {
    if msgs != [] {
      var n := |msgs| - 1;
      var init := msgs[..n];
      LinesOfEmptyIff(init);
      assert LinesOf(msgs) == LinesOf(init) + LineFor(msgs[n]);
      if LinesOf(msgs) == [] {
        assert LinesOf(init) == [] && !HasText(msgs[n]);
        forall i | 0 <= i < |msgs| ensures !HasText(msgs[i]) {
          if i < n {
            assert init[i] == msgs[i];
          }
        }
      } else if LinesOf(init) != [] {
        var i :| 0 <= i < n && HasText(init[i]);
        assert init[i] == msgs[i];
      } else {
        assert HasText(msgs[n]);
      }
    }
  }

  /** The line one message contributes, if any. */
  function LineFor(m: Msg): seq<string>
  {
    if HasText(m) then [FormatLine(m)] else []
  }

  /** Every message with text gives its line. */
  lemma {:induction false} LinesOfComplete(msgs: seq<Msg>, i: nat)
    requires i < |msgs| && HasText(msgs[i])
    ensures FormatLine(msgs[i]) in LinesOf(msgs)
  {
    var n := |msgs| - 1;
    var init := msgs[..n];
    var line := FormatLine(msgs[i]);
    assert LinesOf(msgs) == LinesOf(init) + LineFor(msgs[n]);
    if i < n {
      assert init[i] == msgs[i];
      LinesOfComplete(init, i);
      assert line in LinesOf(init);
    } else {
      assert LineFor(msgs[n]) == [line];
    }
  }

  /** Every line comes from a message with text. */
  lemma {:induction false} LinesOfSound(msgs: seq<Msg>, line: string)
    requires line in LinesOf(msgs)
    ensures exists i :: 0 <= i < |msgs| && HasText(msgs[i]) && line == FormatLine(msgs[i])
  {
    var n := |msgs| - 1;
    var init := msgs[..n];
    assert LinesOf(msgs) == LinesOf(init) + LineFor(msgs[n]);
    if line in LinesOf(init) {
      LinesOfSound(init, line);
      var i :| 0 <= i < |init| && HasText(init[i]) && line == FormatLine(init[i]);
      assert init[i] == msgs[i];
    } else {
      assert HasText(msgs[n]) && line == FormatLine(msgs[n]);
    }
  }

  /** The lines keep message order: building distributes over concatenation. */
  lemma {:induction false} LinesOfAppend(a: seq<Msg>, b: seq<Msg>)
    ensures LinesOf(a + b) == LinesOf(a) + LinesOf(b)
    decreases |b|
  {
    if b == [] {
      assert a + b == a;
    } else {
      var init := b[..|b| - 1];
      assert (a + b)[..|a + b| - 1] == a + init;
      LinesOfAppend(a, init);
    }
  }

  /** The loop of `generate_summary` that fills `lines`. */
  method BuildLines(msgs: seq<Msg>) returns (lines: seq<string>)
    ensures lines == LinesOf(msgs)
  {
    lines := [];
    for i := 0 to |msgs|
      invariant lines == LinesOf(msgs[..i])
    {
      assert msgs[..i + 1][..i] == msgs[..i];
      var txt := Trim(msgs[i].text);
      if txt != "" {
        lines := lines + ["[" + ClockLabel(msgs[i].timestamp) + "] " + msgs[i].user + ": " + txt];
      }
    }
    assert msgs[..|msgs|] == msgs;
  }

  // ---------------------------------------------------------------------
  // Greedy chunker
  // ---------------------------------------------------------------------

  /** `max(1, len(line) // 4)`: a rough token estimate of a line. */
  function LineCost(line: string): (c: nat)
    ensures c >= 1
    ensures 4 * c <= |line| || c == 1
    ensures |line| < 4 * (c + 1)
  {
    if |line| / 4 > 1 then |line| / 4 else 1
  }

  /** Sum of the line costs of a group. */
  function TotalCost(g: seq<string>): (c: nat)
    ensures c >= |g|
  {
    if g == [] then 0 else TotalCost(g[..|g| - 1]) + LineCost(g[|g| - 1])
  }

  lemma TotalCostSnoc(g: seq<string>, n: nat)
    requires n < |g|
    ensures TotalCost(g[..n + 1]) == TotalCost(g[..n]) + LineCost(g[n])
  {
    assert g[..n + 1][..n] == g[..n];
  }

  /** Costs are positive, so a prefix never costs more than the whole group. */
  lemma {:induction false} TotalCostPrefix(g: seq<string>, k: nat)
    requires k <= |g|
    ensures TotalCost(g[..k]) <= TotalCost(g)
    decreases |g| - k
  {
    if k == |g| {
      assert g[..k] == g;
    } else {
      var h := g[..|g| - 1];
      assert h[..k] == g[..k];
      TotalCostPrefix(h, k);
    }
  }

  /** The lines of the groups, in order. */
  function Flatten(gs: seq<seq<string>>): seq<string>
  {
    if gs == [] then [] else gs[0] + Flatten(gs[1..])
  }

  lemma FlattenCons(g: seq<string>, gs: seq<seq<string>>)
    ensures Flatten([g] + gs) == g + Flatten(gs)
  {
    assert ([g] + gs)[1..] == gs;
  }

  /**
   * The chunking loop from the state it is in: `cur` is the open block,
   * `size` its running cost and `rest` the lines still to place.
   */
  function PackFrom(rest: seq<string>, cur: seq<string>, size: int): seq<seq<string>>
    decreases |rest|
  {
    if rest == [] then
      (if cur != [] then [cur] else [])
    else
      var est := LineCost(rest[0]);
      if cur != [] && size + est > BlockCeiling then
        [cur] + PackFrom(rest[1..], [rest[0]], est)
      else
        PackFrom(rest[1..], cur + [rest[0]], size + est)
  }

  /** The blocks, as groups of lines, of a whole line list. */
  function Pack(lines: seq<string>): seq<seq<string>>
  {
    PackFrom(lines, [], 0)
  }

  predicate NonEmptyGroups(gs: seq<seq<string>>)
  {
    forall i :: 0 <= i < |gs| ==> gs[i] != []
  }

  /** A group of two or more lines never exceeds the ceiling. */
  predicate WithinCeiling(gs: seq<seq<string>>)
  {
    forall i :: 0 <= i < |gs| ==> |gs[i]| >= 2 ==> TotalCost(gs[i]) <= BlockCeiling
  }

  /** No group could have taken the first line of the next one. */
  predicate Saturated(gs: seq<seq<string>>)
  {
    forall i :: 1 <= i < |gs| ==> gs[i] == [] || TotalCost(gs[i - 1]) + LineCost(gs[i][0]) > BlockCeiling
  }

  /** The partition greedy first-fit packing produces, stated without the loop. */
  predicate IsGreedyPartition(gs: seq<seq<string>>, lines: seq<string>)
  {
    Flatten(gs) == lines && NonEmptyGroups(gs) && WithinCeiling(gs) && Saturated(gs)
  }

  lemma {:induction false} PackFromFlatten(rest: seq<string>, cur: seq<string>, size: int)
    ensures Flatten(PackFrom(rest, cur, size)) == cur + rest
    decreases |rest|
  {
    if rest == [] {
      if cur != [] {
        FlattenCons(cur, []);
      }
    } else {
      var est := LineCost(rest[0]);
      assert rest == [rest[0]] + rest[1..];
      if cur != [] && size + est > BlockCeiling {
        PackFromFlatten(rest[1..], [rest[0]], est);
        FlattenCons(cur, PackFrom(rest[1..], [rest[0]], est));
      } else {
        PackFromFlatten(rest[1..], cur + [rest[0]], size + est);
      }
    }
  }

  /** The open block is the beginning of the first block emitted. */
  lemma {:induction false} PackFromStartsWithCur(rest: seq<string>, cur: seq<string>, size: int)
    requires cur != []
    ensures var gs := PackFrom(rest, cur, size); gs != [] && |cur| <= |gs[0]| && gs[0][..|cur|] == cur
    decreases |rest|
  {
    if rest != [] {
      var est := LineCost(rest[0]);
      if !(size + est > BlockCeiling) {
        PackFromStartsWithCur(rest[1..], cur + [rest[0]], size + est);
        var g := PackFrom(rest[1..], cur + [rest[0]], size + est)[0];
        assert g[..|cur|] == g[..|cur| + 1][..|cur|];
      }
    }
  }

  lemma {:induction false} PackFromShape(rest: seq<string>, cur: seq<string>, size: int)
    requires size == TotalCost(cur)
    requires |cur| >= 2 ==> TotalCost(cur) <= BlockCeiling
    ensures var gs := PackFrom(rest, cur, size); NonEmptyGroups(gs) && WithinCeiling(gs) && Saturated(gs)
    decreases |rest|
  {
    if rest != [] {
      var est := LineCost(rest[0]);
      if cur != [] && size + est > BlockCeiling {
        var tail := PackFrom(rest[1..], [rest[0]], est);
        assert [rest[0]][..0] == [];
        PackFromShape(rest[1..], [rest[0]], est);
        PackFromStartsWithCur(rest[1..], [rest[0]], est);
        assert tail[0][0] == tail[0][..1][0] == rest[0];
        var gs := [cur] + tail;
        assert forall i :: 1 <= i < |gs| ==> gs[i] == tail[i - 1];
      } else {
        assert (cur + [rest[0]])[..|cur|] == cur;
        PackFromShape(rest[1..], cur + [rest[0]], size + est);
      }
    }
  }

  /** What the chunker produces is the greedy partition of its input. */
  lemma PackIsGreedyPartition(lines: seq<string>)
    ensures IsGreedyPartition(Pack(lines), lines)
    ensures lines != [] <==> Pack(lines) != []
  {
    PackFromFlatten(lines, [], 0);
    PackFromShape(lines, [], 0);
  }

  /** A block that costs more than the ceiling consists of a single, unsplit line of the input. */
  lemma OversizedBlockIsOneLine(lines: seq<string>, i: nat)
    requires i < |Pack(lines)| && TotalCost(Pack(lines)[i]) > BlockCeiling
    ensures |Pack(lines)[i]| == 1 && Pack(lines)[i][0] in lines
  {
    PackIsGreedyPartition(lines);
    FlattenContains(Pack(lines), i);
  }

  lemma {:induction false} FlattenContains(gs: seq<seq<string>>, i: nat)
    requires i < |gs|
    ensures forall line :: line in gs[i] ==> line in Flatten(gs)
  {
    if i > 0 {
      FlattenContains(gs[1..], i - 1);
    }
  }

  lemma {:induction false} GreedyEmpty(gs: seq<seq<string>>, lines: seq<string>)
    requires IsGreedyPartition(gs, lines)
    ensures gs == [] <==> lines == []
  {
    if gs != [] {
      assert gs[0] != [];
    }
  }

  /** Dropping the first group leaves the greedy partition of the remaining lines. */
  lemma GreedyTail(gs: seq<seq<string>>, lines: seq<string>)
    requires IsGreedyPartition(gs, lines) && gs != []
    ensures |gs[0]| <= |lines| && lines[..|gs[0]|] == gs[0]
    ensures IsGreedyPartition(gs[1..], lines[|gs[0]|..])
  {
    assert gs == [gs[0]] + gs[1..];
    FlattenCons(gs[0], gs[1..]);
    var tail := gs[1..];
    assert forall i :: 0 <= i < |tail| ==> tail[i] == gs[i + 1];
  }

  /**
   * Length of the first block greedy packing forms from the `k` first lines
   * already in it (their cost is `size`): the block grows while the next
   * line still fits under the ceiling.
   */
  function FirstBlockLength(lines: seq<string>, k: nat, size: int): (n: nat)
    requires 1 <= k <= |lines|
    ensures k <= n <= |lines|
    decreases |lines| - k
  {
    if k < |lines| && size + LineCost(lines[k]) <= BlockCeiling then
      FirstBlockLength(lines, k + 1, size + LineCost(lines[k]))
    else k
  }

  /** The first group of any greedy partition has the length greedy packing gives it. */
  lemma {:induction false} GreedyFirstGroupLength(gs: seq<seq<string>>, lines: seq<string>, k: nat)
    requires IsGreedyPartition(gs, lines) && gs != []
    requires 1 <= k <= |gs[0]|
    ensures |gs[0]| <= |lines| && FirstBlockLength(lines, k, TotalCost(lines[..k])) == |gs[0]|
    decreases |gs[0]| - k
  {
    GreedyTail(gs, lines);
    var m := |gs[0]|;
    assert lines[..k] == gs[0][..k];
    if k < m {
      assert lines[..k + 1] == gs[0][..k + 1];
      TotalCostSnoc(gs[0], k);
      TotalCostPrefix(gs[0], k + 1);
      assert gs[0][k] == lines[k];
      GreedyFirstGroupLength(gs, lines, k + 1);
    } else if k < |lines| {
      assert lines[..k] == gs[0];
      GreedyEmpty(gs[1..], lines[k..]);
      GreedyTail(gs[1..], lines[k..]);
      assert gs[1][0] == lines[k];
    }
  }

  /** A line list has exactly one greedy partition. */
  lemma {:induction false} GreedyPartitionUnique(a: seq<seq<string>>, b: seq<seq<string>>, lines: seq<string>)
    requires IsGreedyPartition(a, lines) && IsGreedyPartition(b, lines)
    ensures a == b
    decreases |lines|
  {
    GreedyEmpty(a, lines);
    GreedyEmpty(b, lines);
    if a != [] {
      GreedyFirstGroupLength(a, lines, 1);
      GreedyFirstGroupLength(b, lines, 1);
      GreedyTail(a, lines);
      GreedyTail(b, lines);
      GreedyPartitionUnique(a[1..], b[1..], lines[|a[0]|..]);
      assert a == [a[0]] + a[1..];
      assert b == [b[0]] + b[1..];
    }
  }

  /** The characterisation is exact: a partition is greedy iff it is what the chunker produces. */
  lemma GreedyPartitionIsPack(gs: seq<seq<string>>, lines: seq<string>)
    ensures IsGreedyPartition(gs, lines) <==> gs == Pack(lines)
  {
    PackIsGreedyPartition(lines);
    if IsGreedyPartition(gs, lines) {
      GreedyPartitionUnique(gs, Pack(lines), lines);
    }
  }

  /** `"\n".join(cur)` of each group. */
  function BlockTexts(gs: seq<seq<string>>): (r: seq<string>)
    ensures |r| == |gs|
  {
    seq(|gs|, i requires 0 <= i < |gs| => Join("\n", gs[i]))
  }

  /** The chunking loop of `generate_summary`. */
  method Chunk(lines: seq<string>) returns (blocks: seq<string>)
    ensures blocks == BlockTexts(Pack(lines))
  {
    blocks := [];
    var cur: seq<string> := [];
    var size := 0;
    ghost var groups: seq<seq<string>> := [];
    for i := 0 to |lines|
      invariant groups + PackFrom(lines[i..], cur, size) == Pack(lines)
      invariant blocks == BlockTexts(groups)
    {
      var line := lines[i];
      var est := LineCost(line);
      assert lines[i..] == [line] + lines[i + 1..];
      if cur != [] && size + est > BlockCeiling {
        blocks := blocks + [Join("\n", cur)];
        groups := groups + [cur];
        cur, size := [line], est;
      } else {
        cur := cur + [line];
        size := size + est;
      }
    }
    if cur != [] {
      blocks := blocks + [Join("\n", cur)];
      groups := groups + [cur];
    }
    assert groups == Pack(lines);
  }
}
