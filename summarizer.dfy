/**
 * The two-stage reduction of `generate_summary`: one completion call per
 * block, in block order, each reply appended to the partial summaries;
 * then one final call over the partials joined with newlines.
 *
 * The completion service is an oracle `complete` from requests to replies;
 * `None` stands for a call that raised, which in the source propagates out
 * of `generate_summary` and ends the run. `calls` records every request
 * sent, in order.
 */
module Summarizer {
  import opened Wrappers
  import opened Text
  import opened Store
  import opened Chunker

  /** Result when no message has text; no completion call is made. */
  const NoTextReply: string := "Нет текстовых сообщений."

  /**
   * A completion request: the partial-summary prompt followed by one block,
   * or the final prompt whose material is the joined partial summaries.
   * Prompt wording, model name and generation parameters are fixed per kind.
   */
  datatype Request = Partial(block: string) | Final(material: string)

  /** What `generate_summary` returns, or the call whose failure it propagates. */
  datatype Outcome = Summary(text: string) | CompletionFailed(request: Request)

  /** The completion service, as seen by the summariser. */
  type Completion = Request -> Option<string>

  /** One partial-summary request per block, in block order. */
  function PartialCalls(blocks: seq<string>): seq<Request>
  {
    seq(|blocks|, i requires 0 <= i < |blocks| => Partial(blocks[i]))
  }

  /** Index of the first block whose partial call fails, or the number of blocks if none does. */
  function FirstFailure(blocks: seq<string>, complete: Completion): (k: nat)
    ensures k <= |blocks|
    ensures forall i :: 0 <= i < k ==> complete(Partial(blocks[i])).Some?
    ensures k < |blocks| ==> complete(Partial(blocks[k])).None?
  {
    if blocks == [] then 0
    else if complete(Partial(blocks[0])).None? then 0
    else 1 + FirstFailure(blocks[1..], complete)
  }

  /** The replies of all partial calls, when all of them succeed. */
  function Replies(blocks: seq<string>, complete: Completion): seq<string>
    requires FirstFailure(blocks, complete) == |blocks|
  {
    seq(|blocks|, i requires 0 <= i < |blocks| => complete(Partial(blocks[i])).value)
  }

  /** The outcome of the final call over `material`. */
  function FinalOutcome(material: string, complete: Completion): Outcome
  {
    match complete(Final(material))
    case Some(text) => Summary(text)
    case None => CompletionFailed(Final(material))
  }

  /** Stage one: the loop that fills `partials`, stopping at the first call that fails. */
  method CollectPartials(blocks: seq<string>, complete: Completion) returns (partials: seq<string>, calls: seq<Request>, failed: bool)
    ensures failed <==> FirstFailure(blocks, complete) < |blocks|
    ensures failed ==> calls == PartialCalls(blocks[..FirstFailure(blocks, complete) + 1])
    ensures !failed ==> calls == PartialCalls(blocks) && partials == Replies(blocks, complete)
  {
    partials, calls, failed := [], [], false;
    var i := 0;
    while i < |blocks|
      invariant 0 <= i <= |blocks| && i <= FirstFailure(blocks, complete)
      invariant calls == PartialCalls(blocks[..i])
      invariant |partials| == i && forall j :: 0 <= j < i ==> complete(Partial(blocks[j])) == Some(partials[j])
    {
      calls := calls + [Partial(blocks[i])];
      var reply := complete(Partial(blocks[i]));
      if reply.None? {
        failed := true;
        return;
      }
      partials := partials + [reply.value];
      i := i + 1;
    }
    assert blocks[..i] == blocks;
  }

  /**
   * `generate_summary`: no line means the fixed reply and no call at all;
   * otherwise a partial call per block in order and, only when all of them
   * succeed, exactly one final call over the partials joined with `"\n"`.
   */
  method GenerateSummary(msgs: seq<Msg>, complete: Completion) returns (outcome: Outcome, calls: seq<Request>)
    ensures LinesOf(msgs) == [] ==> outcome == Summary(NoTextReply) && calls == []
    ensures LinesOf(msgs) != [] ==>
              var blocks := BlockTexts(Pack(LinesOf(msgs)));
              var k := FirstFailure(blocks, complete);
              && blocks != []
              && (k < |blocks| ==>
                    calls == PartialCalls(blocks[..k + 1]) && outcome == CompletionFailed(Partial(blocks[k])))
              && (k == |blocks| ==>
                    var material := Join("\n", Replies(blocks, complete));
                    calls == PartialCalls(blocks) + [Final(material)] && outcome == FinalOutcome(material, complete))
  {
    var lines := BuildLines(msgs);
    if lines == [] {
      return Summary(NoTextReply), [];
    }
    PackIsGreedyPartition(lines);
    var blocks := Chunk(lines);
    var partials, partialCalls, failed := CollectPartials(blocks, complete);
    if failed {
      var k := FirstFailure(blocks, complete);
      return CompletionFailed(Partial(blocks[k])), partialCalls;
    }
    var material := Join("\n", partials);
    calls := partialCalls + [Final(material)];
    var reply := complete(Final(material));
    match reply {
      case Some(text) => outcome := Summary(text);
      case None => outcome := CompletionFailed(Final(material));
    }
  }

  /**
   * The stage barrier, on any trace `GenerateSummary` can record: a final
   * call is made exactly when every partial call succeeded, and then it is
   * the last call and follows one partial call per block.
   */
  lemma FinalCallOnlyAfterAllPartials(blocks: seq<string>, complete: Completion, material: string, calls: seq<Request>)
    requires var k := FirstFailure(blocks, complete);
             if k < |blocks| then calls == PartialCalls(blocks[..k + 1])
             else calls == PartialCalls(blocks) + [Final(material)]
    ensures (exists j :: 0 <= j < |calls| && calls[j].Final?) <==> FirstFailure(blocks, complete) == |blocks|
    ensures forall j :: 0 <= j < |calls| && calls[j].Final? ==> j == |calls| - 1 == |blocks|
  {
    var k := FirstFailure(blocks, complete);
    if k < |blocks| {
      var prefix := blocks[..k + 1];
      assert |calls| == |prefix|;
      forall j | 0 <= j < |calls| ensures calls[j].Partial? {
        assert calls[j] == PartialCalls(prefix)[j];
      }
    } else {
      var ps := PartialCalls(blocks);
      assert calls[|blocks|] == Final(material);
      forall j | 0 <= j < |blocks| ensures calls[j].Partial? {
        assert calls[j] == ps[j];
      }
    }
  }
}
