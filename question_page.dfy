/**
 * The client page of src/app/page.tsx: the fenced-code segmentation inside
 * `ContentRenderer`, the turning of each block the server returns into a
 * question card, and the state changes of `generateQuestions`.
 */
module QuestionPage {
  import opened Wrappers
  import opened JsString
  import opened Types

  // ---------------------------------------------------------------------------
  // From a block string to a question card (`data.questions.map(...)`)
  // ---------------------------------------------------------------------------

  /** Separates the question from the answer in a block. */
  const AnswerSeparator := "\nA: "
  /** Removed (once) from the question text. */
  const QuestionPrefix := "Q: "

  /** `questionPart` in `const [questionPart, ...answerParts] = qa.split('\nA: ')`. */
  function QuestionPart(qa: string): (part: string)
    ensures |part| <= |qa| && part == qa[..|part|]
    ensures !Contains(part, AnswerSeparator)
    ensures |part| < |qa| ==> OccursAt(qa, AnswerSeparator, |part|)
  {
    var parts := Split(qa, AnswerSeparator);
    assert |parts[0]| < |qa| ==> OccursAt(qa, AnswerSeparator, |parts[0]|) by {
      if |parts| > 1 {
        OccursBetween(parts[0], AnswerSeparator, Join(parts[1..], AnswerSeparator));
      }
    }
    parts[0]
  }

  /** `answerParts.join('\nA: ')`. */
  function RawAnswer(qa: string): (answer: string)
    ensures |QuestionPart(qa)| == |qa| ==> answer == ""
    ensures |QuestionPart(qa)| < |qa| ==> QuestionPart(qa) + AnswerSeparator + answer == qa
  {
    var parts := Split(qa, AnswerSeparator);
    assert |parts| == 1 ==> parts[0] == qa;
    Join(parts[1..], AnswerSeparator)
  }

  /** The card for one block: the question part without its first "Q: ",
      trimmed, and the re-joined answer parts, trimmed. */
  function ParseBlock(qa: string): (q: Question)
    ensures IsTrimmed(q.question) && IsTrimmed(q.answer)
  {
    Question(Trim(ReplaceFirst(QuestionPart(qa), QuestionPrefix, "")), Trim(RawAnswer(qa)))
  }

  /** Only the first separator splits: the question part is the text before it
      and the answer is all the text after it, later separators included. */
  lemma SplitAtFirstSeparator(qa: string, i: nat)
    requires IsFirstOccurrence(qa, AnswerSeparator, i)
    ensures QuestionPart(qa) == qa[..i]
    ensures RawAnswer(qa) == qa[i + |AnswerSeparator|..]
    ensures QuestionPart(qa) + AnswerSeparator + RawAnswer(qa) == qa
  {
    SplitAtFirst(qa, AnswerSeparator, i);
    var parts := Split(qa, AnswerSeparator);
    assert parts[1..] == Split(qa[i + |AnswerSeparator|..], AnswerSeparator);
    assert qa == qa[..i] + qa[i..i + |AnswerSeparator|] + qa[i + |AnswerSeparator|..];
  }

  /** A block without a separator is all question and has the empty answer. */
  lemma NoSeparatorNoAnswer(qa: string)
    requires !Contains(qa, AnswerSeparator)
    ensures QuestionPart(qa) == qa && RawAnswer(qa) == ""
    ensures ParseBlock(qa) == Question(Trim(ReplaceFirst(qa, QuestionPrefix, "")), "")
  {
    SplitWithoutSeparator(qa, AnswerSeparator);
    assert Trim("") == "";
  }

  /** The card's fields in terms of the first separator. */
  lemma ParseBlockFields(qa: string, i: nat)
    requires IsFirstOccurrence(qa, AnswerSeparator, i)
    ensures ParseBlock(qa).question == Trim(ReplaceFirst(qa[..i], QuestionPrefix, ""))
    ensures ParseBlock(qa).answer == Trim(qa[i + |AnswerSeparator|..])
  {
    SplitAtFirstSeparator(qa, i);
  }

  /** An empty question is not rejected: "Q: " followed directly by the answer
      gives a card whose question is empty. */
  lemma EmptyQuestionAccepted()
    ensures ParseBlock("Q: \nA: x").question == ""
  {
    ExampleQuestionPart("Q: \nA: x");
    ExampleReplace("Q: ");
  }

  lemma ExampleQuestionPart(qa: string)
    requires qa == "Q: \nA: x"
    ensures QuestionPart(qa) == "Q: "
  {
    assert OccursAt(qa, AnswerSeparator, 3);
    forall j | 0 <= j < 3 ensures !OccursAt(qa, AnswerSeparator, j) {
      OccursAtFirstChar(qa, AnswerSeparator, j);
      assert qa[j] != '\n';
    }
    SplitAtFirstSeparator(qa, 3);
  }

  lemma ExampleReplace(part: string)
    requires part == "Q: "
    ensures ReplaceFirst(part, QuestionPrefix, "") == ""
  {
    assert IsFirstOccurrence(part, QuestionPrefix, 0);
  }

  /** The cards for the blocks: one per block, in the same order. */
  function ProcessQuestions(blocks: seq<string>): (cards: seq<Question>)
    ensures |cards| == |blocks|
    ensures forall k :: 0 <= k < |cards| ==> cards[k] == ParseBlock(blocks[k])
    ensures forall k :: 0 <= k < |cards| ==> IsTrimmed(cards[k].question) && IsTrimmed(cards[k].answer)
  {
    seq(|blocks|, k requires 0 <= k < |blocks| => ParseBlock(blocks[k]))
  }

  // ---------------------------------------------------------------------------
  // Fenced-code segmentation (`ContentRenderer`)
  // ---------------------------------------------------------------------------

  const Fence := "```"

  /** The end of the match of /```[\s\S]*?```/ at `q`: the lazy body stops at
      the first fence that starts at least three characters after `q`. */
  function FenceMatchEnd(s: string, q: nat): (e: Option<nat>)
    ensures e.Some? ==> q + 6 <= e.value <= |s| && OccursAt(s, Fence, q)
                        && OccursAt(s, Fence, e.value - 3)
                        && forall j :: q + 3 <= j < e.value - 3 ==> !OccursAt(s, Fence, j)
    ensures e.None? ==> !OccursAt(s, Fence, q) || forall j :: q + 3 <= j ==> !OccursAt(s, Fence, j)
  {
    if !OccursAt(s, Fence, q) then None
    else
      match IndexOf(s[q + 3..], Fence)
      case None =>
        NoFenceAfter(s, q + 3);
        None
      case Some(i) =>
        FenceAfter(s, q + 3, i);
        Some(q + 3 + i + 3)
  }

  /** A suffix without a fence leaves no fence from its start on. */
  lemma NoFenceAfter(s: string, k: nat)
    requires k <= |s| && !Contains(s[k..], Fence)
    ensures forall j :: k <= j ==> !OccursAt(s, Fence, j)
  {
    forall j | k <= j ensures !OccursAt(s, Fence, j) {
      OccursInSuffix(s, Fence, k, j - k);
    }
  }

  /** The first fence of a suffix is a fence of the whole text, with none before it in the suffix. */
  lemma FenceAfter(s: string, k: nat, i: nat)
    requires k <= |s| && IsFirstOccurrence(s[k..], Fence, i)
    ensures OccursAt(s, Fence, k + i) && k + i + 3 <= |s|
    ensures forall j :: k <= j < k + i ==> !OccursAt(s, Fence, j)
  {
    OccursInSuffix(s, Fence, k, i);
    forall j | k <= j < k + i ensures !OccursAt(s, Fence, j) {
      OccursInSuffix(s, Fence, k, j - k);
    }
  }

  /** The first position at or after `from` where the pattern matches. */
  function FirstFenceMatch(s: string, from: nat): (r: Option<nat>)
    ensures r.Some? ==> from <= r.value && FenceMatchEnd(s, r.value).Some?
    ensures forall q :: from <= q && (r.None? || q < r.value) ==> FenceMatchEnd(s, q).None?
    decreases |s| - from
  {
    if from >= |s| then None
    else if FenceMatchEnd(s, from).Some? then Some(from)
    else FirstFenceMatch(s, from + 1)
  }

  /** `s` holds a complete fence pair: a fence and a later one that does not overlap it. */
  predicate HasFencePair(s: string) {
    exists i, j :: 0 <= i && i + 3 <= j && j + 3 <= |s| && OccursAt(s, Fence, i) && OccursAt(s, Fence, j)
  }

  /** No fence starts inside `prose`, even one that runs on into a fence
      written right after it. */
  predicate NoFenceStartsIn(prose: string) {
    forall i :: 0 <= i < |prose| ==> !FenceStartsAt(prose + Fence, i)
  }

  /** A fence starts at position `i` of `t`. This is `OccursAt(t, Fence, i)`
      under a name of its own, so that the quantifier in `NoFenceStartsIn`
      fires only where a proof mentions `FenceStartsAt`, not at every
      occurrence of a fence in the texts around it. */
  predicate FenceStartsAt(t: string, i: int) {
    OccursAt(t, Fence, i)
  }

  /** A fenced block: at least six characters, a fence at each end, and no
      fence starting anywhere between the two, even one that overlaps the
      closing fence: the lazy match closes at the first fence it can. */
  predicate IsFencedBlock(t: string) {
    && |t| >= 6 && StartsWith(t, Fence) && EndsWith(t, Fence)
    && forall j :: 3 <= j < |t| - 3 ==> !OccursAt(t, Fence, j)
  }

  /** The match is lazy: no shorter prefix of a fenced block is one itself. */
  lemma FencedBlockIsShortest(t: string)
    requires IsFencedBlock(t)
    ensures forall k :: 0 <= k < |t| ==> !IsFencedBlock(t[..k])
  {
    forall k | 0 <= k < |t| ensures !IsFencedBlock(t[..k]) {
      if IsFencedBlock(t[..k]) {
        OccursInPrefix(t, Fence, k, k - 3);
      }
    }
  }

  /** A text with no match anywhere has no fence pair. */
  lemma NoMatchNoPair(s: string)
    requires FirstFenceMatch(s, 0).None?
    ensures !HasFencePair(s)
  {
    forall i, j | 0 <= i && i + 3 <= j && j + 3 <= |s| && OccursAt(s, Fence, i)
      ensures !OccursAt(s, Fence, j)
    {
      assert FenceMatchEnd(s, i).None?;
    }
  }

  /** Below the first match (its opening fence included) there is no fence pair. */
  lemma NoPairBeforeFirstMatch(s: string, q: nat, k: nat)
    requires FirstFenceMatch(s, 0) == Some(q) && k <= q + 3 && k <= |s|
    ensures !HasFencePair(s[..k])
  {
    var t := s[..k];
    forall i, j | 0 <= i && i + 3 <= j && j + 3 <= |t| && OccursAt(t, Fence, i)
      ensures !OccursAt(t, Fence, j)
    {
      OccursInPrefix(s, Fence, k, i);
      OccursInPrefix(s, Fence, k, j);
      assert FenceMatchEnd(s, i).None?;
    }
  }

  /** The parts alternate: prose without a fence pair at even indices and
      fenced blocks at odd ones; no fence starts inside a prose part that a
      block follows, so each block opens at the leftmost match. */
  ghost predicate IsFenceSegmentation(parts: seq<string>) {
    && |parts| % 2 == 1
    && (forall k :: 0 <= k < |parts| && k % 2 == 1 ==> IsFencedBlock(parts[k]))
    && (forall k :: 0 <= k < |parts| && k % 2 == 0 ==> !HasFencePair(parts[k]))
    && (forall k :: 0 <= k < |parts| - 1 && k % 2 == 0 ==> NoFenceStartsIn(parts[k]))
  }

  /** `content.split(/(```[\s\S]*?```)/)`: the text between matches, with each
      match kept (it is the captured group) between them. */
  function SplitFences(s: string): (parts: seq<string>)
    ensures Concat(parts) == s && IsFenceSegmentation(parts)
    ensures parts == [s] <==> !HasFencePair(s)
    decreases |s|
  {
    match FirstFenceMatch(s, 0)
    case None =>
      NoMatchStep(s);
      [s]
    case Some(q) =>
      var e := FenceMatchEnd(s, q).value;
      FirstMatch(s, q, e);
      MatchStep(s, q, e, SplitFences(s[e..]));
      [s[..q], s[q..e]] + SplitFences(s[e..])
  }

  /** A text without a match is one part of its own. */
  lemma NoMatchStep(s: string)
    requires FirstFenceMatch(s, 0).None?
    ensures Concat([s]) == s && IsFenceSegmentation([s]) && !HasFencePair(s)
  {
    NoMatchNoPair(s);
    assert Concat([s]) == s + Concat([]);
  }

  /** The text before the first match and the match itself, in front of the
      segmentation of the rest, segment the whole text. */
  lemma MatchStep(s: string, q: nat, e: nat, rest: seq<string>)
    requires q <= e <= |s| && IsFencedBlock(s[q..e])
    requires !HasFencePair(s[..q]) && NoFenceStartsIn(s[..q])
    requires Concat(rest) == s[e..] && IsFenceSegmentation(rest)
    ensures var parts := [s[..q], s[q..e]] + rest;
            Concat(parts) == s && IsFenceSegmentation(parts) && |parts| > 1
  {
    PrependMatch(s[..q], s[q..e], rest);
    assert s == s[..q] + s[q..e] + s[e..];
  }

  /** The first match is a fenced block, and the text before it holds no fence pair. */
  lemma FirstMatch(s: string, q: nat, e: nat)
    requires FirstFenceMatch(s, 0) == Some(q) && FenceMatchEnd(s, q) == Some(e)
    ensures IsFencedBlock(s[q..e]) && HasFencePair(s)
    ensures !HasFencePair(s[..q]) && NoFenceStartsIn(s[..q])
  {
    MatchIsFencedBlock(s, q, e);
    NoPairBeforeFirstMatch(s, q, q);
    NoFenceBeforeFirstMatch(s, q, e);
  }

  /** No fence starts before the first match: with the match's closing fence
      after it, it would have been a match itself. */
  lemma NoFenceBeforeFirstMatch(s: string, q: nat, e: nat)
    requires FirstFenceMatch(s, 0) == Some(q) && FenceMatchEnd(s, q) == Some(e)
    ensures NoFenceStartsIn(s[..q])
  {
    NoFenceBelowFirstMatch(s, q, e);
    NoFenceStartsBelow(s, q);
  }

  /** With no fence below a fence at `q`, none starts in the text before it. */
  lemma NoFenceStartsBelow(s: string, q: nat)
    requires OccursAt(s, Fence, q) && forall i :: 0 <= i < q ==> !OccursAt(s, Fence, i)
    ensures NoFenceStartsIn(s[..q])
  {
    FencePrefix(s, q);
    NoFenceInPrefix(s, q, q + 3);
    forall i | 0 <= i < q ensures !FenceStartsAt(s[..q] + Fence, i) { }
  }

  /** No fence of the text starts before the first match. */
  lemma NoFenceBelowFirstMatch(s: string, q: nat, e: nat)
    requires FirstFenceMatch(s, 0) == Some(q) && FenceMatchEnd(s, q) == Some(e)
    ensures forall i :: 0 <= i < q ==> !OccursAt(s, Fence, i)
  {
    forall i | 0 <= i < q ensures !OccursAt(s, Fence, i) {
      assert FenceMatchEnd(s, i).None?;
      assert OccursAt(s, Fence, e - 3) && i + 3 <= e - 3;
    }
  }

  /** A text with no fence below `q` has none below `q` in its first `k` characters. */
  lemma NoFenceInPrefix(s: string, q: nat, k: nat)
    requires k <= |s| && forall i :: 0 <= i < q ==> !OccursAt(s, Fence, i)
    ensures forall i :: 0 <= i < q ==> !OccursAt(s[..k], Fence, i)
  {
    forall i | 0 <= i < q ensures !OccursAt(s[..k], Fence, i) {
      if i + 3 <= k {
        OccursInPrefix(s, Fence, k, i);
      }
    }
  }

  /** A match is a fenced block, and its two fences are a pair in the text. */
  lemma MatchIsFencedBlock(s: string, q: nat, e: nat)
    requires q + 6 <= e <= |s| && OccursAt(s, Fence, q) && OccursAt(s, Fence, e - 3)
    requires forall j :: q + 3 <= j < e - 3 ==> !OccursAt(s, Fence, j)
    ensures IsFencedBlock(s[q..e]) && HasFencePair(s)
  {
    var block := s[q..e];
    SliceOfSlice(s, q, e, 0, 3);
    SliceOfSlice(s, q, e, |block| - 3, |block|);
    assert StartsWith(block, Fence) && EndsWith(block, Fence);
    forall j | 3 <= j < |block| - 3 ensures !OccursAt(block, Fence, j) {
      if OccursAt(block, Fence, j) {
        OccursInSlice(s, q, e, Fence, j);
      }
    }
    assert OccursAt(s, Fence, q) && q + 3 <= e - 3 && OccursAt(s, Fence, e - 3);
  }

  /** The text up to a fence, with that fence. */
  lemma FencePrefix(s: string, q: nat)
    requires OccursAt(s, Fence, q)
    ensures s[..q] + Fence == s[..q + 3]
  {
    assert s[q..q + 3] == Fence;
    assert s[..q + 3] == s[..q] + s[q..q + 3];
  }

  /** The segmentation property determines the split: any parts that
      concatenate back to the text and form a segmentation are its split. */
  lemma {:induction false} SegmentationIsUnique(s: string, parts: seq<string>)
    requires Concat(parts) == s && IsFenceSegmentation(parts)
    ensures parts == SplitFences(s)
    decreases |parts|
  {
    if |parts| == 1 {
      assert parts[1..] == [];
      assert s == parts[0];
    } else {
      var rest := parts[2..];
      ConcatFront(parts);
      SegmentationTail(parts);
      SegmentationIsUnique(Concat(rest), rest);
      SplitFencesAtBlock(parts[0], parts[1], Concat(rest));
      assert parts == [parts[0], parts[1]] + rest;
    }
  }

  /** The first two parts, then the rest. */
  lemma ConcatFront(parts: seq<string>)
    requires |parts| >= 2
    ensures Concat(parts) == parts[0] + parts[1] + Concat(parts[2..])
  {
    assert parts[1..][1..] == parts[2..];
  }

  /** Prose in which no fence starts, then a fenced block: the split takes
      both as its first two parts and goes on with the rest. */
  lemma SplitFencesAtBlock(prose: string, block: string, r: string)
    requires NoFenceStartsIn(prose) && IsFencedBlock(block)
    ensures SplitFences(prose + block + r) == [prose, block] + SplitFences(r)
  {
    var s := prose + block + r;
    BlockIsFirstMatch(prose, block, r);
    var q, e := |prose|, |prose| + |block|;
    assert s[..q] == prose && s[q..e] == block && s[e..] == r;
  }

  /** Four backticks, `x` and three backticks: the match opens at the first
      backtick, so the whole answer is the one fenced block. */
  lemma FourBacktickExample()
    ensures SplitFences("````x```") == ["", "````x```", ""]
  {
    var t := "````x```";
    FourBacktickBlock(t);
    var parts := ["", t, ""];
    ConcatFront(parts);
    assert parts[2..][1..] == [];
    SegmentationIsUnique(t, parts);
  }

  /** Four backticks, `x` and three backticks form one fenced block: the `x`
      keeps a fence from starting at positions 3 and 4. */
  lemma FourBacktickBlock(t: string)
    requires t == "````x```"
    ensures IsFencedBlock(t)
  {
    assert t[3..6][1] == t[4] == 'x' != Fence[1];
    assert t[4..7][0] == t[4] == 'x' != Fence[0];
    assert t[..3] == Fence && t[5..] == Fence;
  }

  /** Dropping the first prose part and block of a segmentation leaves one. */
  lemma SegmentationTail(parts: seq<string>)
    requires IsFenceSegmentation(parts) && |parts| >= 3
    ensures IsFenceSegmentation(parts[2..])
  {
    var rest := parts[2..];
    forall k | 0 <= k < |rest| ensures rest[k] == parts[k + 2] { }
  }

  /** A fenced block after prose in which no fence starts is the first match,
      and the match ends with the block. */
  lemma BlockIsFirstMatch(prose: string, block: string, r: string)
    requires NoFenceStartsIn(prose) && IsFencedBlock(block)
    ensures FirstFenceMatch(prose + block + r, 0) == Some(|prose|)
    ensures FenceMatchEnd(prose + block + r, |prose|) == Some(|prose| + |block|)
  {
    var s := prose + block + r;
    BlockMatchEnd(prose, block, r);
    forall i | 0 <= i < |prose| ensures FenceMatchEnd(s, i).None? {
      NoFenceBeforeBlock(prose, block, r, i);
    }
    FirstMatchAt(s, |prose|);
  }

  /** The fences of a block after prose are the fences of the whole text
      between the block's ends, so the lazy match at the block ends with it. */
  lemma BlockMatchEnd(prose: string, block: string, r: string)
    requires IsFencedBlock(block)
    ensures FenceMatchEnd(prose + block + r, |prose|) == Some(|prose| + |block|)
  {
    BlockFencesInText(prose, block, r);
    MatchEndAt(prose + block + r, |prose|, |prose| + |block|);
  }

  /** The fences of a block after prose, seen in the whole text. */
  lemma BlockFencesInText(prose: string, block: string, r: string)
    requires IsFencedBlock(block)
    ensures var s, q, e := prose + block + r, |prose|, |prose| + |block|;
            && q + 6 <= e <= |s| && OccursAt(s, Fence, q) && OccursAt(s, Fence, e - 3)
            && forall j :: q + 3 <= j < e - 3 ==> !OccursAt(s, Fence, j)
  {
    var s, q, e := prose + block + r, |prose|, |prose| + |block|;
    BlockFences(block);
    OccursInMiddle(prose, block, r, Fence, q);
    OccursInMiddle(prose, block, r, Fence, e - 3);
    forall j | q + 3 <= j < e - 3 ensures !OccursAt(s, Fence, j) {
      OccursInMiddle(prose, block, r, Fence, j);
    }
  }

  /** A fenced block opens and closes with a fence. */
  lemma BlockFences(block: string)
    requires IsFencedBlock(block)
    ensures OccursAt(block, Fence, 0) && OccursAt(block, Fence, |block| - 3)
  {
    assert block[0..3] == Fence;
    assert block[|block| - 3..|block|] == Fence;
  }

  /** The lazy match at `q` ends at `e` when the fences at `q` and `e - 3` are
      the first pair from `q`. */
  lemma MatchEndAt(s: string, q: nat, e: nat)
    requires q + 6 <= e <= |s| && OccursAt(s, Fence, q) && OccursAt(s, Fence, e - 3)
    requires forall j :: q + 3 <= j < e - 3 ==> !OccursAt(s, Fence, j)
    ensures FenceMatchEnd(s, q) == Some(e)
  {
    var m := FenceMatchEnd(s, q);
    assert m.Some?;
    assert !(m.value - 3 < e - 3) && !(e - 3 < m.value - 3);
  }

  /** No match starts inside prose in which no fence starts. */
  lemma NoFenceBeforeBlock(prose: string, block: string, r: string, i: nat)
    requires NoFenceStartsIn(prose) && IsFencedBlock(block) && i < |prose|
    ensures FenceMatchEnd(prose + block + r, i).None?
  {
    var s := prose + block + r;
    var q := |prose|;
    BlockFences(block);
    assert s[..q + 3] == prose + Fence;
    assert !FenceStartsAt(prose + Fence, i);
    OccursInPrefix(s, Fence, q + 3, i);
  }

  /** A match with none before it is the first match. */
  lemma FirstMatchAt(s: string, q: nat)
    requires FenceMatchEnd(s, q).Some?
    requires forall i :: 0 <= i < q ==> FenceMatchEnd(s, i).None?
    ensures FirstFenceMatch(s, 0) == Some(q)
  {
    var m := FirstFenceMatch(s, 0);
    assert m.Some?;
    assert !(m.value < q) && !(q < m.value);
  }

  /** Putting a prose part and a fenced block in front of a segmentation keeps
      it a segmentation. */
  lemma PrependMatch(prose: string, block: string, rest: seq<string>)
    requires IsFencedBlock(block) && !HasFencePair(prose) && NoFenceStartsIn(prose)
    requires IsFenceSegmentation(rest)
    ensures IsFenceSegmentation([prose, block] + rest)
    ensures Concat([prose, block] + rest) == prose + block + Concat(rest)
  {
    var parts := [prose, block] + rest;
    assert parts[1..][1..] == rest;
    forall k | 2 <= k < |parts| ensures parts[k] == rest[k - 2] { }
  }

  /** How one part is shown: `part.startsWith('```') && part.endsWith('```')`
      makes it code. */
  predicate LooksFenced(part: string) {
    StartsWith(part, Fence) && EndsWith(part, Fence)
  }

  /** A part as shown: a code box or a paragraph. */
  datatype Segment = Code(code: string) | Prose(text: string)

  /** The element `ContentRenderer` makes for one part: the code is
      `part.slice(3, -3).trim()`, prose is the part unchanged. */
  function RenderPart(part: string): (seg: Segment)
    ensures seg.Code? <==> LooksFenced(part)
    ensures seg.Prose? ==> seg.text == part
    ensures seg.Code? && |part| >= 6 ==> seg.code == Trim(part[3..|part| - 3])
    ensures seg.Code? && |part| < 6 ==> seg.code == ""
  {
    if LooksFenced(part) then Code(Trim(Slice(part, 3, -3))) else Prose(part)
  }

  /** The segments of an answer, in order. */
  function Render(content: string): (segs: seq<Segment>)
    ensures |segs| == |SplitFences(content)| && |segs| >= 1
    ensures forall k :: 0 <= k < |segs| ==> segs[k] == RenderPart(SplitFences(content)[k])
  {
    var parts := SplitFences(content);
    seq(|parts|, k requires 0 <= k < |parts| => RenderPart(parts[k]))
  }

  /** Every fenced block is shown as code whose text is everything between its
      fences, trimmed; a language tag after the opening fence stays in it. */
  lemma FencedBlocksAreCode(content: string, k: nat)
    requires k < |SplitFences(content)| && k % 2 == 1
    ensures var part := SplitFences(content)[k];
            Render(content)[k] == Code(Trim(part[3..|part| - 3]))
  {
  }

  /** A part that looks fenced and is six characters or longer holds a fence pair. */
  lemma LongFencedLookHasPair(part: string)
    ensures LooksFenced(part) && |part| >= 6 ==> HasFencePair(part)
  {
    if LooksFenced(part) && |part| >= 6 {
      assert OccursAt(part, Fence, 0) && OccursAt(part, Fence, |part| - 3);
    }
  }

  /** A part that starts with a fence has a fence starting inside it. */
  lemma LeadingFenceStartsInPart(part: string)
    ensures StartsWith(part, Fence) ==> !NoFenceStartsIn(part)
  {
    if StartsWith(part, Fence) {
      var t := part + Fence;
      assert t[0..3] == part[0..3] == Fence;
      assert FenceStartsAt(t, 0);
    }
  }

  /** Text outside the fenced blocks is shown as prose, unchanged, except that a
      last part made of three to five backticks alone is shown as an empty code box. */
  lemma OutsideTextIsProse(content: string, k: nat)
    requires k < |SplitFences(content)| && k % 2 == 0
    ensures var parts := SplitFences(content);
            k < |parts| - 1 ==> Render(content)[k] == Prose(parts[k])
    ensures var parts := SplitFences(content);
            Render(content)[k] == Prose(parts[k]) || (|parts[k]| < 6 && Render(content)[k] == Code(""))
  {
    var parts := SplitFences(content);
    LongFencedLookHasPair(parts[k]);
    LeadingFenceStartsInPart(parts[k]);
  }

  /** A content without a fence pair is shown as one paragraph of itself (or,
      when it is three to five backticks, as an empty code box). */
  lemma NoFencePairIsOnePart(content: string)
    requires !HasFencePair(content)
    ensures Render(content) == [RenderPart(content)]
  {
  }

  // ---------------------------------------------------------------------------
  // The page state and `generateQuestions`
  // ---------------------------------------------------------------------------

  const EmptySubjectMessage := "Please enter a subject"
  const FailureMessage := "Failed to generate questions. Please try again."

  /** How the `fetch` to the route ends: a `response.ok` response whose
      `questions` list could be mapped, or anything that throws. */
  datatype FetchOutcome = Fetched(blocks: seq<string>) | FetchFailed

  /** The state of `InterviewQuestionsPage`. */
  class InterviewPage {
    var subject: string
    var includeCode: bool
    var questions: seq<Question>
    var loading: bool
    var error: string

    /** Every card on the page has trimmed fields. */
    predicate Valid()
      reads this`questions
    {
      forall k :: 0 <= k < |questions| ==> IsTrimmed(questions[k].question) && IsTrimmed(questions[k].answer)
    }

    /** The initial `useState` values. */
    constructor ()
      ensures Valid()
      ensures subject == "" && !includeCode && questions == [] && !loading && error == ""
    {
      subject, includeCode, questions, loading, error := "", false, [], false, "";
    }

    /** The subject input's `onChange`. */
    method SetSubject(value: string)
      modifies this`subject
      ensures subject == value
      ensures Valid() == old(Valid())
    {
      subject := value;
    }

    /** The code checkbox's `onChange`. */
    method SetIncludeCode(value: bool)
      modifies this`includeCode
      ensures includeCode == value
      ensures Valid() == old(Valid())
    {
      includeCode := value;
    }

    /** `generateQuestions` up to the `fetch`: a blank subject only sets the
      error; otherwise the page starts loading, clears the error and gives the
      body it posts. */
    method BeginRequest() returns (request: Option<GenerateRequestBody>)
      modifies this`loading, this`error
      ensures Valid() == old(Valid())
      ensures IsBlank(subject) ==> request == None && error == EmptySubjectMessage && loading == old(loading)
      ensures !IsBlank(subject) ==>
                request == Some(GenerateRequestBody(Some(subject), includeCode)) && loading && error == ""
    {
      if Trim(subject) == "" {
        error := EmptySubjectMessage;
        return None;
      }
      loading := true;
      error := "";
      request := Some(GenerateRequestBody(Some(subject), includeCode));
    }

    /** `generateQuestions` after the `fetch`: new cards on success, the
      failure message otherwise, and loading ends either way. */
    method FinishRequest(outcome: FetchOutcome)
      requires Valid()
      modifies this`questions, this`error, this`loading
      ensures Valid() && !loading
      ensures outcome.Fetched? ==> questions == ProcessQuestions(outcome.blocks) && error == old(error)
      ensures outcome.FetchFailed? ==> questions == old(questions) && error == FailureMessage
    {
      match outcome {
        case Fetched(blocks) =>
          questions := ProcessQuestions(blocks);
        case FetchFailed =>
          error := FailureMessage;
      }
      loading := false;
    }

    /** The whole `generateQuestions`, with the fetch's outcome as a parameter. */
    method GenerateQuestions(outcome: FetchOutcome)
      requires Valid()
      modifies this
      ensures Valid()
      ensures subject == old(subject) && includeCode == old(includeCode)
      ensures IsBlank(subject) ==>
                error == EmptySubjectMessage && loading == old(loading) && questions == old(questions)
      ensures !IsBlank(subject) ==> !loading
      ensures !IsBlank(subject) && outcome.Fetched? ==>
                questions == ProcessQuestions(outcome.blocks) && error == ""
      ensures !IsBlank(subject) && outcome.FetchFailed? ==>
                questions == old(questions) && error == FailureMessage
    {
      var request := BeginRequest();
      if request.Some? {
        FinishRequest(outcome);
      }
    }
  }
}
