/**
 * `safe_reply`: the parts a summary is sent in, so that each Telegram
 * message stays within the length limit. Only the parts are modelled; the
 * sending itself is not.
 */
module Reply {
  import opened Text

  /** `MAX_TG_LEN`. */
  const MaxTelegramLength: int := 3500

  /** Sent instead of an empty summary. */
  const EmptyReply: string := "Пустой ответ от модели."

  /** State of the splitting loop: the parts emitted so far and the open buffer. */
  datatype Split = Split(parts: seq<string>, buf: string)

  /**
   * One iteration of the loop over the paragraphs. A paragraph that fits is
   * joined to the buffer with a blank line and the result stripped; one that
   * does not fit closes the buffer as a part and starts the next buffer.
   * With `skipEmpty` an empty buffer is not emitted as a part (the corrected
   * loop); without it the loop behaves as written in app.py.
   */
  function Step(st: Split, block: string, skipEmpty: bool): Split
  {
    if |st.buf| + |block| + 2 <= MaxTelegramLength then
      Split(st.parts, Trim(st.buf + ParagraphBreak + block))
    else
      Split(if skipEmpty && st.buf == "" then st.parts else st.parts + [st.buf], block)
  }

  /** The loop state after the given paragraphs, starting from no parts and an empty buffer. */
  function Fold(paras: seq<string>, skipEmpty: bool): Split
  {
    if paras == [] then Split([], "")
    else Step(Fold(paras[..|paras| - 1], skipEmpty), paras[|paras| - 1], skipEmpty)
  }

  /** `if buf: parts.append(buf)`. */
  function Finish(st: Split): seq<string>
  {
    if st.buf != "" then st.parts + [st.buf] else st.parts
  }

  /** The messages `safe_reply` sends for `text`, in order. */
  function ReplyParts(text: string): (r: seq<string>)
    ensures text == "" ==> r == [EmptyReply]
    ensures 0 < |text| <= MaxTelegramLength ==> r == [text]
  {
    if text == "" then [EmptyReply]
    else if |text| <= MaxTelegramLength then [text]
    else Finish(Fold(Paragraphs(text), false))
  }

  /** The reply loop with an empty buffer never emitted as a part. */
  function ReplyPartsNonEmpty(text: string): (r: seq<string>)
    ensures text == "" ==> r == [EmptyReply]
    ensures 0 < |text| <= MaxTelegramLength ==> r == [text]
  {
    if text == "" then [EmptyReply]
    else if |text| <= MaxTelegramLength then [text]
    else Finish(Fold(Paragraphs(text), true))
  }

  /** The splitting part of `safe_reply`, as the loop it is. */
  method SplitReply(text: string) returns (parts: seq<string>)
    ensures parts == ReplyParts(text)
  {
    if text == "" {
      return [EmptyReply];
    }
    if |text| <= MaxTelegramLength {
      return [text];
    }
    parts := [];
    var buf := "";
    var paras := Paragraphs(text);
    for i := 0 to |paras|
      invariant Split(parts, buf) == Fold(paras[..i], false)
    {
      assert paras[..i + 1][..i] == paras[..i];
      var block := paras[i];
      if |buf| + |block| + 2 <= MaxTelegramLength {
        buf := Trim(buf + ParagraphBreak + block);
      } else {
        parts := parts + [buf];
        buf := block;
      }
    }
    assert paras[..|paras|] == paras;
    if buf != "" {
      parts := parts + [buf];
    }
  }

  // ---------------------------------------------------------------------
  // Properties of the loop, for the as-written and the corrected variant
  // ---------------------------------------------------------------------

  /** A piece of text fits in one message, or else it is one of the paragraphs, unjoined. */
  predicate FitsOrParagraph(p: string, paras: seq<string>)
  {
    |p| <= MaxTelegramLength || p in paras
  }

  lemma {:induction false} FoldFitsOrParagraph(paras: seq<string>, skipEmpty: bool)
    ensures var st := Fold(paras, skipEmpty);
            FitsOrParagraph(st.buf, paras) && forall p :: p in st.parts ==> FitsOrParagraph(p, paras)
  {
    if paras != [] {
      var init := paras[..|paras| - 1];
      FoldFitsOrParagraph(init, skipEmpty);
      assert forall p :: p in init ==> p in paras;
    }
  }

  /** Every part longer than the limit is a single paragraph of the text, never a joined one. */
  lemma LongPartsAreParagraphs(text: string, skipEmpty: bool)
    ensures var parts := if skipEmpty then ReplyPartsNonEmpty(text) else ReplyParts(text);
            forall p :: p in parts && |p| > MaxTelegramLength ==> p in Paragraphs(text)
  {
    if |text| > MaxTelegramLength {
      FoldFitsOrParagraph(Paragraphs(text), skipEmpty);
    }
  }

  /** Visible content of a loop state: its parts followed by its buffer. */
  function StateText(st: Split): string
  {
    Concat(st.parts) + st.buf
  }

  lemma JoinKeepsVisible(parts: seq<string>, buf: string, block: string)
    ensures Visible(Concat(parts) + Trim(buf + ParagraphBreak + block)) == Visible(Concat(parts) + buf) + Visible(block)
  {
    var c := Concat(parts);
    var joined := buf + ParagraphBreak + block;
    VisibleTrim(joined);
    VisibleAppend(c, Trim(joined));
    VisibleAppend(buf + ParagraphBreak, block);
    VisibleAppend(buf, ParagraphBreak);
    VisibleAppend(c, buf);
    VisibleAllSpace(ParagraphBreak);
    calc {
      Visible(c + Trim(joined));
      Visible(c) + Visible(joined);
      Visible(c) + (Visible(buf) + Visible(ParagraphBreak) + Visible(block));
      Visible(c) + Visible(buf) + Visible(block);
    }
  }

  lemma CloseKeepsVisible(parts: seq<string>, buf: string, block: string, emitted: seq<string>)
    requires emitted == parts + [buf] || (buf == "" && emitted == parts)
    ensures Visible(Concat(emitted) + block) == Visible(Concat(parts) + buf) + Visible(block)
  {
    ConcatSnoc(parts, buf);
    VisibleAppend(Concat(emitted), block);
    VisibleAppend(Concat(parts), buf);
    if emitted == parts {
      assert Concat(parts) + buf == Concat(parts);
    }
  }

  lemma StepKeepsVisible(st: Split, block: string, skipEmpty: bool)
    ensures Visible(StateText(Step(st, block, skipEmpty))) == Visible(StateText(st)) + Visible(block)
  {
    if |st.buf| + |block| + 2 <= MaxTelegramLength {
      JoinKeepsVisible(st.parts, st.buf, block);
    } else {
      CloseKeepsVisible(st.parts, st.buf, block, Step(st, block, skipEmpty).parts);
    }
  }

  lemma {:induction false} FoldKeepsVisible(paras: seq<string>, skipEmpty: bool)
    ensures Visible(StateText(Fold(paras, skipEmpty))) == Visible(Concat(paras))
  {
    if paras != [] {
      var init := paras[..|paras| - 1];
      var last := paras[|paras| - 1];
      FoldKeepsVisible(init, skipEmpty);
      StepKeepsVisible(Fold(init, skipEmpty), last, skipEmpty);
      assert paras == init + [last];
      ConcatSnoc(init, last);
      VisibleAppend(Concat(init), last);
    }
  }

  /**
   * Splitting loses, duplicates and reorders no visible character: the
   * parts, concatenated, hold the non-whitespace characters of the text in
   * their original order.
   */
  lemma ReplyKeepsVisibleText(text: string, skipEmpty: bool)
    requires text != ""
    ensures var parts := if skipEmpty then ReplyPartsNonEmpty(text) else ReplyParts(text);
            Visible(Concat(parts)) == Visible(text)
  {
    if |text| <= MaxTelegramLength {
      assert Concat([text]) == text + Concat([]);
      assert text + "" == text;
    } else {
      var st := Fold(Paragraphs(text), skipEmpty);
      FoldKeepsVisible(Paragraphs(text), skipEmpty);
      assert StateText(st) == Concat(st.parts) + st.buf;
      VisibleParagraphs(text);
      if st.buf != "" {
        ConcatSnoc(st.parts, st.buf);
      } else {
        assert Concat(st.parts) + st.buf == Concat(st.parts);
      }
    }
  }

  /** The loop only ever appends parts. */
  lemma {:induction false} FoldPartsGrow(paras: seq<string>, k: nat, skipEmpty: bool)
    requires k <= |paras|
    ensures Fold(paras[..k], skipEmpty).parts <= Fold(paras, skipEmpty).parts
    decreases |paras| - k
  {
    if k == |paras| {
      assert paras[..k] == paras;
    } else {
      var init := paras[..|paras| - 1];
      assert init[..k] == paras[..k];
      FoldPartsGrow(init, k, skipEmpty);
    }
  }

  /**
   * As written, a first paragraph longer than the limit minus two makes the
   * loop emit the still-empty buffer as the first part.
   */
  lemma FirstPartEmptyWhenFirstParagraphLong(text: string)
    requires |text| > MaxTelegramLength && |Paragraphs(text)[0]| > MaxTelegramLength - 2
    ensures ReplyParts(text) != [] && ReplyParts(text)[0] == ""
  {
    var paras := Paragraphs(text);
    assert paras[..1][..0] == [];
    assert Fold(paras[..1], false).parts == [""];
    FoldPartsGrow(paras, 1, false);
  }

  /**
   * As written, whenever a paragraph that does not fit meets an empty
   * buffer, the empty buffer is emitted as a part.
   */
  lemma EmptyPartWhenParagraphMeetsEmptyBuffer(paras: seq<string>, k: nat)
    requires k < |paras| && Fold(paras[..k], false).buf == ""
    requires |paras[k]| + 2 > MaxTelegramLength
    ensures "" in Fold(paras, false).parts
  {
    assert paras[..k + 1][..k] == paras[..k];
    assert "" in Fold(paras[..k + 1], false).parts;
    FoldPartsGrow(paras, k + 1, false);
  }

  /** A first paragraph that is only whitespace leaves the buffer empty. */
  lemma BlankFirstParagraphLeavesBufferEmpty(paras: seq<string>)
    requires |paras| >= 1 && AllSpace(paras[0]) && |paras[0]| + 2 <= MaxTelegramLength
    ensures Fold(paras[..1], false).buf == ""
  {
    assert paras[..1][..0] == [];
    var joined := "" + ParagraphBreak + paras[0];
    forall i | 0 <= i < |joined| ensures IsSpace(joined[i]) {
      if i >= 2 {
        assert joined[i] == paras[0][i - 2];
      }
    }
    TrimEmptyIff(joined);
  }

  lemma {:induction false} FoldPartsNonEmpty(paras: seq<string>)
    ensures forall p :: p in Fold(paras, true).parts ==> p != ""
  {
    if paras != [] {
      FoldPartsNonEmpty(paras[..|paras| - 1]);
    }
  }

  /** With the correction, no part is ever empty. */
  lemma CorrectedPartsNonEmpty(text: string)
    ensures forall p :: p in ReplyPartsNonEmpty(text) ==> p != ""
  {
    if |text| > MaxTelegramLength {
      FoldPartsNonEmpty(Paragraphs(text));
    }
  }
}
