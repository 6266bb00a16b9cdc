/**
 * String helpers the bot relies on from Python's `str`: `strip()`,
 * `sep.join(parts)` and `split("\n\n")`, plus `Visible`, the characters of
 * a string that are not whitespace, used to state that reshaping a text
 * loses, duplicates and reorders none of its visible content.
 */
module Text {

  /** Characters Python's `str.isspace` accepts, which `str.strip()` removes. */
  predicate IsSpace(c: char)
  {
    || ('\U{9}' <= c <= '\U{D}')
    || ('\U{1C}' <= c <= '\U{20}')
    || c == '\U{85}' || c == '\U{A0}' || c == '\U{1680}'
    || ('\U{2000}' <= c <= '\U{200A}')
    || c == '\U{2028}' || c == '\U{2029}' || c == '\U{202F}'
    || c == '\U{205F}' || c == '\U{3000}'
  }

  predicate AllSpace(s: string)
  {
    forall i :: 0 <= i < |s| ==> IsSpace(s[i])
  }

  /** Python's `s.lstrip()`. */
  function TrimStart(s: string): (r: string)
    ensures |r| <= |s|
  {
    if s != [] && IsSpace(s[0]) then TrimStart(s[1..]) else s
  }

  /** `lstrip()` removes a whitespace prefix and nothing else. */
  lemma {:induction false} TrimStartShape(s: string)
    ensures var r := TrimStart(s); r == s[|s| - |r|..] && AllSpace(s[..|s| - |r|])
    ensures var r := TrimStart(s); r == [] || !IsSpace(r[0])
  {
    if s != [] && IsSpace(s[0]) {
      TrimStartShape(s[1..]);
      assert s == [s[0]] + s[1..];
    } else {
      assert s[..0] == [];
    }
  }

  /** Python's `s.rstrip()`. */
  function TrimEnd(s: string): (r: string)
    ensures |r| <= |s|
  {
    if s != [] && IsSpace(s[|s| - 1]) then TrimEnd(s[..|s| - 1]) else s
  }

  /** `rstrip()` removes a whitespace suffix and nothing else. */
  lemma {:induction false} TrimEndShape(s: string)
    ensures var r := TrimEnd(s); r == s[..|r|] && AllSpace(s[|r|..])
    ensures var r := TrimEnd(s); r == [] || !IsSpace(r[|r| - 1])
  {
    if s != [] && IsSpace(s[|s| - 1]) {
      var init := s[..|s| - 1];
      TrimEndShape(init);
      var r := TrimEnd(init);
      assert s[..|r|] == init[..|r|];
      assert s[|r|..] == init[|r|..] + [s[|s| - 1]];
    } else {
      assert s[|s|..] == [];
    }
  }

  /** Python's `s.strip()`: the longest infix that neither starts nor ends in whitespace. */
  function Trim(s: string): (r: string)
  {
    TrimEnd(TrimStart(s))
  }

  /** `strip()` never lengthens, and leaves no whitespace at either end. */
  lemma TrimShape(s: string)
    ensures |Trim(s)| <= |s|
    ensures Trim(s) == [] || (!IsSpace(Trim(s)[0]) && !IsSpace(Trim(s)[|Trim(s)| - 1]))
  {
    var t := TrimStart(s);
    TrimStartShape(s);
    TrimEndShape(t);
    var u := TrimEnd(t);
    if u != [] {
      assert u[0] == t[0];
    }
  }

  /**
   * `strip()` cuts a whitespace prefix and a whitespace suffix and keeps the
   * infix between them untouched.
   */
  lemma TrimIsInfix(s: string)
    ensures var k := |s| - |TrimStart(s)|;
      k + |Trim(s)| <= |s| &&
      Trim(s) == s[k..k + |Trim(s)|] && AllSpace(s[..k]) && AllSpace(s[k + |Trim(s)|..])
  {
    var t := TrimStart(s);
    var k := |s| - |t|;
    TrimStartShape(s);
    TrimEndShape(t);
    var u := TrimEnd(t);
    assert s[k..k + |u|] == t[..|u|];
    assert s[k + |u|..] == t[|u|..];
  }

  /** `strip()` yields the empty string exactly for all-whitespace text. */
  lemma {:induction false} TrimEmptyIff(s: string)
    ensures Trim(s) == [] <==> AllSpace(s)
  {
    var t := TrimStart(s);
    var k := |s| - |t|;
    TrimStartShape(s);
    TrimEndShape(t);
    assert s == s[..k] + t;
    if Trim(s) == [] {
      assert AllSpace(t[0..]);
      assert t == [];
      assert s == s[..k];
    } else {
      assert !IsSpace(t[0]);
      assert s[k] == t[0];
    }
  }

  /** The non-whitespace characters of `s`, in order. */
  function Visible(s: string): string
  {
    if s == [] then [] else (if IsSpace(s[0]) then [] else [s[0]]) + Visible(s[1..])
  }

  lemma {:induction false} VisibleAppend(a: string, b: string)
    ensures Visible(a + b) == Visible(a) + Visible(b)
  {
    if a != [] {
      assert (a + b)[1..] == a[1..] + b;
      VisibleAppend(a[1..], b);
    } else {
      assert a + b == b;
    }
  }

  lemma {:induction false} VisibleAllSpace(s: string)
    requires AllSpace(s)
    ensures Visible(s) == []
  {
    if s != [] {
      VisibleAllSpace(s[1..]);
    }
  }

  /** `strip()` removes whitespace only. */
  lemma VisibleTrim(s: string)
    ensures Visible(Trim(s)) == Visible(s)
  {
    VisibleTrimStart(s);
    VisibleTrimEnd(TrimStart(s));
  }

  lemma VisibleTrimStart(s: string)
    ensures Visible(TrimStart(s)) == Visible(s)
  {
    var t := TrimStart(s);
    TrimStartShape(s);
    var head := s[..|s| - |t|];
    assert s == head + t;
    VisibleAppend(head, t);
    VisibleAllSpace(head);
  }

  lemma VisibleTrimEnd(s: string)
    ensures Visible(TrimEnd(s)) == Visible(s)
  {
    var u := TrimEnd(s);
    TrimEndShape(s);
    var tail := s[|u|..];
    assert s == u + tail;
    VisibleAppend(u, tail);
    VisibleAllSpace(tail);
  }

  /** Python's `sep.join(parts)`. */
  function Join(sep: string, parts: seq<string>): string
  {
    if |parts| == 0 then ""
    else if |parts| == 1 then parts[0]
    else parts[0] + sep + Join(sep, parts[1..])
  }

  /** `"".join(parts)`. */
  function Concat(parts: seq<string>): string
  {
    if parts == [] then "" else parts[0] + Concat(parts[1..])
  }

  lemma {:induction false} ConcatSnoc(parts: seq<string>, p: string)
    ensures Concat(parts + [p]) == Concat(parts) + p
  {
    if parts != [] {
      assert (parts + [p])[1..] == parts[1..] + [p];
      ConcatSnoc(parts[1..], p);
    }
  }

  /** The paragraph separator of a reply. */
  const ParagraphBreak: string := "\n\n"

  predicate StartsWithBreak(s: string)
  {
    |s| >= 2 && s[0] == '\n' && s[1] == '\n'
  }

  predicate EndsInNewline(s: string)
  {
    s != [] && s[|s| - 1] == '\n'
  }

  /** No piece of the split contains the separator. */
  predicate NoParagraphBreak(p: string)
  {
    forall i :: 0 <= i < |p| - 1 ==> !StartsWithBreak(p[i..])
  }

  /**
   * Python's `s.split("\n\n")`: the pieces between the non-overlapping
   * occurrences of the separator, found from the left.
   */
  function Paragraphs(s: string): (r: seq<string>)
    ensures |r| >= 1
    ensures forall p :: p in r ==> NoParagraphBreak(p)
    ensures s != [] && !StartsWithBreak(s) ==> r[0] != [] && r[0][0] == s[0]
    ensures forall i :: 0 <= i < |r| - 1 ==> !EndsInNewline(r[i])
    ensures |r| > 1 && r[0] == [] ==> StartsWithBreak(s)
  {
    if |s| < 2 then [s]
    else if s[..2] == ParagraphBreak then [""] + Paragraphs(s[2..])
    else
      var rest := Paragraphs(s[1..]);
      assert s[..2] == [s[0], s[1]];
      PrependKeepsNoBreak(s[0], rest[0]);
      [[s[0]] + rest[0]] + rest[1..]
  }

  /** A character put in front of a piece creates no separator unless both are newlines. */
  lemma PrependKeepsNoBreak(c: char, t: string)
    requires NoParagraphBreak(t)
    ensures c != '\n' || t == [] || t[0] != '\n' ==> NoParagraphBreak([c] + t)
  {
    var u := [c] + t;
    forall i | 1 <= i < |u| - 1
      ensures u[i..] == t[i - 1..]
    {
    }
  }

  lemma JoinPrepend(sep: string, c: string, ps: seq<string>)
    requires |ps| >= 1
    ensures Join(sep, [c + ps[0]] + ps[1..]) == c + Join(sep, ps)
  {
    assert ([c + ps[0]] + ps[1..])[1..] == ps[1..];
  }

  /** Joining the paragraphs back with the separator gives the text. */
  lemma {:induction false} ParagraphsJoin(s: string)
    ensures Join(ParagraphBreak, Paragraphs(s)) == s
  {
    if |s| < 2 {
    } else if s[..2] == ParagraphBreak {
      var rest := Paragraphs(s[2..]);
      ParagraphsJoin(s[2..]);
      assert ([""] + rest)[1..] == rest;
      assert s == s[..2] + s[2..];
    } else {
      var rest := Paragraphs(s[1..]);
      ParagraphsJoin(s[1..]);
      JoinPrepend(ParagraphBreak, [s[0]], rest);
      assert s == [s[0]] + s[1..];
    }
  }

  /**
   * What a split of `s` at `"\n\n"` must satisfy: the pieces join back to
   * `s`, none contains the separator, and every separator is matched
   * leftmost, so no piece but the last ends in a newline.
   */
  predicate IsParagraphSplit(s: string, r: seq<string>)
  {
    && |r| >= 1
    && Join(ParagraphBreak, r) == s
    && (forall p :: p in r ==> NoParagraphBreak(p))
    && (forall i :: 0 <= i < |r| - 1 ==> !EndsInNewline(r[i]))
  }

  lemma NoBreakAtStart(p: string)
    requires NoParagraphBreak(p)
    ensures !StartsWithBreak(p)
  {
    if |p| >= 2 {
      assert p[0..] == p;
    }
  }

  /** `Paragraphs` is such a split. */
  lemma ParagraphsIsSplit(s: string)
    ensures IsParagraphSplit(s, Paragraphs(s))
  {
    ParagraphsJoin(s);
  }

  /** There is only one such split, so these properties determine `split("\n\n")`. */
  lemma {:induction false} ParagraphSplitUnique(s: string, r: seq<string>)
    requires IsParagraphSplit(s, r)
    ensures r == Paragraphs(s)
    decreases |s|
  {
    var p := r[0];
    var rest := Join(ParagraphBreak, r[1..]);
    assert |r| > 1 ==> s == p + ParagraphBreak + rest;
    assert |r| == 1 ==> s == p;
    assert NoParagraphBreak(p);
    if |s| < 2 {
      assert |r| > 1 ==> |s| >= 2;
      assert r == [s];
    } else if s[..2] == ParagraphBreak {
      assert s[0] == '\n' && s[1] == '\n';
      NoBreakAtStart(p);
      assert |r| > 1;
      assert s[..|p|] == p;
      assert !EndsInNewline(p);
      assert p == [];
      var tail := r[1..];
      assert s[2..] == rest;
      forall i | 0 <= i < |tail| - 1
        ensures !EndsInNewline(tail[i])
      {
        assert tail[i] == r[i + 1];
      }
      ParagraphSplitUnique(s[2..], tail);
      assert r == [""] + tail;
    } else {
      assert |r| > 1 ==> s[..|p|] == p && s[|p|..|p| + 2] == ParagraphBreak;
      assert p != [] && p[0] == s[0];
      var r' := [p[1..]] + r[1..];
      assert r'[1..] == r[1..];
      assert [p[0]] + p[1..] == p;
      JoinPrepend(ParagraphBreak, [p[0]], r');
      assert s == [s[0]] + s[1..];
      forall i | 0 <= i < |p[1..]| - 1
        ensures !StartsWithBreak(p[1..][i..])
      {
        assert p[1..][i..] == p[i + 1..];
      }
      forall i | 0 <= i < |r'| - 1
        ensures !EndsInNewline(r'[i])
      {
        if i > 0 {
          assert r'[i] == r[i];
        }
      }
      forall q | q in r'
        ensures NoParagraphBreak(q)
      {
        if q != p[1..] {
          assert q in r;
        }
      }
      ParagraphSplitUnique(s[1..], r');
      assert r == [[s[0]] + r'[0]] + r'[1..];
    }
  }

  /** Visible content of a paragraph-joined text is that of its paragraphs. */
  lemma {:induction false} VisibleJoinParagraphs(ps: seq<string>)
    ensures Visible(Join(ParagraphBreak, ps)) == Visible(Concat(ps))
  {
    if |ps| == 1 {
      assert ps[1..] == [];
      assert Concat(ps) == ps[0] + Concat(ps[1..]) == ps[0] + "";
      assert ps[0] + "" == ps[0];
    } else if |ps| > 1 {
      VisibleJoinParagraphs(ps[1..]);
      VisibleAppend(ps[0] + ParagraphBreak, Join(ParagraphBreak, ps[1..]));
      VisibleAppend(ps[0], ParagraphBreak);
      VisibleAppend(ps[0], Concat(ps[1..]));
      assert Visible(ParagraphBreak) == [];
    }
  }

  /** Visible content of a whole text equals that of its paragraphs. */
  lemma VisibleParagraphs(s: string)
    ensures Visible(Concat(Paragraphs(s))) == Visible(s)
  {
    ParagraphsJoin(s);
    VisibleJoinParagraphs(Paragraphs(s));
  }
}
