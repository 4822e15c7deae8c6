/** The snippet of a search hit: the verse whose highlighted span is the longest, or the opening verse. */
module Snippet {
  import opened Wrappers
  import opened Utf16

  const OPEN := "<mark>"
  const CLOSE := "</mark>"

  predicate At(text: string, pattern: string, i: nat) {
    i + |pattern| <= |text| && text[i..i + |pattern|] == pattern
  }

  /** The first occurrence of a pattern at or after a position. */
  function FindFrom(text: string, pattern: string, i: nat): (found: Option<nat>)
    ensures found.Some? ==> i <= found.value && At(text, pattern, found.value)
    ensures found.Some? ==> forall j :: i <= j < found.value ==> !At(text, pattern, j)
    ensures found.None? ==> forall j :: i <= j ==> !At(text, pattern, j)
    decreases |text| - i
  {
    if i + |pattern| > |text| then None
    else if At(text, pattern, i) then Some(i)
    else FindFrom(text, pattern, i + 1)
  }

  function Find(text: string, pattern: string): (found: Option<nat>)
    ensures found.Some? ==> found.value + |pattern| <= |text|
  {
    FindFrom(text, pattern, 0)
  }

  // ---------------------------------------------------------------------------------------------
  // Marked spans

  /** The UTF-16 lengths of the closed marks, found from left to right; an unclosed mark ends the
      search. */
  function MarkSpans(text: string): seq<nat>
    decreases |text|
  {
    match Find(text, OPEN)
    case None => []
    case Some(open) =>
      var after := text[open + |OPEN|..];
      match Find(after, CLOSE)
      case None => []
      case Some(close) => [Utf16Length(after[..close])] + MarkSpans(after[close + |CLOSE|..])
  }

  ghost predicate IsLongest(spans: seq<nat>, longest: nat) {
    && (forall i :: 0 <= i < |spans| ==> spans[i] <= longest)
    && (longest == 0 || longest in spans)
  }

  function Longest(spans: seq<nat>): (longest: nat)
    ensures IsLongest(spans, longest)
  {
    if spans == [] then 0
    else var rest := Longest(spans[1..]); if spans[0] > rest then spans[0] else rest
  }

  function Larger(a: nat, b: nat): nat {
    if a > b then a else b
  }

  function SpanOf(hemistich: Option<string>): nat {
    if hemistich.None? then 0 else Longest(MarkSpans(hemistich.value))
  }

  method LongestMarkSpan(hemistich: Option<string>) returns (longest: nat)
    ensures longest == SpanOf(hemistich)
  {
    if hemistich.None? {
      return 0;
    }
    longest := 0;
    var rest := hemistich.value;
    while true
      invariant SpanOf(hemistich) == Larger(longest, Longest(MarkSpans(rest)))
      decreases |rest|
    {
      var open := Find(rest, OPEN);
      if open.None? {
        break;
      }
      var after := rest[open.value + |OPEN|..];
      var close := Find(after, CLOSE);
      if close.None? {
        break;
      }
      longest := Larger(longest, Utf16Length(after[..close.value]));
      assert MarkSpans(rest)[1..] == MarkSpans(after[close.value + |CLOSE|..]);
      rest := after[close.value + |CLOSE|..];
    }
  }

  // ---------------------------------------------------------------------------------------------
  // Measuring undoes marking

  /** Text that was left as it is, and the marked text after it. */
  datatype Mark = Mark(before: string, text: string)

  /** The highlighter's output: marked texts between tags, and what follows the last of them. */
  function Highlighted(marks: seq<Mark>, tail: string): string {
    if marks == [] then tail
    else marks[0].before + (OPEN + (marks[0].text + (CLOSE + Highlighted(marks[1..], tail))))
  }

  function MarkedLengths(marks: seq<Mark>): seq<nat> {
    if marks == [] then [] else [Utf16Length(marks[0].text)] + MarkedLengths(marks[1..])
  }

  /** What was left alone holds no opening tag, and what was marked no closing tag. */
  predicate Unambiguous(marks: seq<Mark>) {
    forall i :: 0 <= i < |marks| ==> Find(marks[i].before, OPEN).None? && Find(marks[i].text, CLOSE).None?
  }

  /** No opening tag, or one that is never closed. */
  predicate Ended(tail: string) {
    match Find(tail, OPEN)
    case None => true
    case Some(open) => Find(tail[open + |OPEN|..], CLOSE).None?
  }

  lemma FoundAt(text: string, pattern: string, i: nat)
    requires At(text, pattern, i) && forall j :: 0 <= j < i ==> !At(text, pattern, j)
    ensures Find(text, pattern) == Some(i)
  {
  }

  lemma NotFound(text: string, pattern: string)
    requires forall j: nat :: !At(text, pattern, j)
    ensures Find(text, pattern) == None
  {
  }

  lemma AtCharacter(text: string, pattern: string, i: nat, k: nat)
    requires At(text, pattern, i) && k < |pattern|
    ensures i + k < |text| && text[i + k] == pattern[k]
  {
    assert text[i + k] == text[i..i + |pattern|][k];
  }

  lemma AtInPrefix(prefix: string, rest: string, pattern: string, j: nat)
    requires j + |pattern| <= |prefix|
    ensures At(prefix + rest, pattern, j) <==> At(prefix, pattern, j)
  {
    assert (prefix + rest)[j..j + |pattern|] == prefix[j..j + |pattern|];
  }

  lemma AtShifted(prefix: string, rest: string, pattern: string, k: nat)
    ensures At(prefix + rest, pattern, |prefix| + k) <==> At(rest, pattern, k)
  {
    if k + |pattern| <= |rest| {
      assert (prefix + rest)[|prefix| + k..|prefix| + k + |pattern|] == rest[k..k + |pattern|];
    }
  }

  /** A tag begins with its only angle bracket of that kind, so it cannot run on into another tag. */
  predicate IsTag(pattern: string) {
    pattern != [] && pattern[0] == '<' && forall k :: 1 <= k < |pattern| ==> pattern[k] != '<'
  }

  lemma TagsAreTags()
    ensures IsTag(OPEN) && IsTag(CLOSE)
  {
  }

  lemma NoneAt(text: string, pattern: string, j: nat)
    requires Find(text, pattern).None?
    ensures !At(text, pattern, j)
  {
  }

  lemma NoneInside(prefix: string, rest: string, pattern: string, j: nat)
    requires Find(prefix, pattern).None? && IsTag(pattern) && j < |prefix| && rest != [] && rest[0] == '<'
    ensures !At(prefix + rest, pattern, j)
  {
    hide Find, At;
    NoneAt(prefix, pattern, j);
    if j + |pattern| <= |prefix| {
      AtInPrefix(prefix, rest, pattern, j);
    } else if At(prefix + rest, pattern, j) {
      AtCharacter(prefix + rest, pattern, j, |prefix| - j);
    }
  }

  /** Text without a tag in front of another tag shifts what comes and adds nothing. */
  lemma FreePrefix(prefix: string, rest: string, pattern: string)
    requires Find(prefix, pattern).None? && IsTag(pattern) && rest != [] && rest[0] == '<'
    ensures Find(prefix + rest, pattern)
         == match Find(rest, pattern) case None => None case Some(i) => Some(|prefix| + i)
  {
    hide At, IsTag;
    var all := prefix + rest;
    forall j: nat
      ensures At(all, pattern, j) <==> j >= |prefix| && At(rest, pattern, j - |prefix|)
    {
      if j < |prefix| {
        NoneInside(prefix, rest, pattern, j);
      } else {
        AtShifted(prefix, rest, pattern, j - |prefix|);
      }
    }
    match Find(rest, pattern) {
      case Some(i) =>
        assert At(rest, pattern, (|prefix| + i) - |prefix|);
        FoundAt(all, pattern, |prefix| + i);
      case None => NotFound(all, pattern);
    }
  }

  /** What follows the first occurrence of a pattern. */
  function After(text: string, pattern: string): Option<string> {
    match Find(text, pattern)
    case None => None
    case Some(i) => Some(text[i + |pattern|..])
  }

  lemma StartsWith(pattern: string, rest: string)
    ensures Find(pattern + rest, pattern) == Some(0)
    ensures (pattern + rest)[|pattern|..] == rest
  {
    assert (pattern + rest)[0..|pattern|] == pattern;
    FoundAt(pattern + rest, pattern, 0);
  }

  lemma OneMark(text: string, after: string, close: nat, rest: string)
    requires After(text, OPEN) == Some(after)
    requires Find(after, CLOSE) == Some(close) && after[close + |CLOSE|..] == rest
    ensures MarkSpans(text) == [Utf16Length(after[..close])] + MarkSpans(rest)
  {
    hide Find, Utf16Length;
  }

  lemma MarkedFirst(mark: Mark, rest: string)
    requires Find(mark.before, OPEN).None? && Find(mark.text, CLOSE).None?
    ensures MarkSpans(mark.before + (OPEN + (mark.text + (CLOSE + rest))))
         == [Utf16Length(mark.text)] + MarkSpans(rest)
  {
    hide Find, MarkSpans, Utf16Length;
    TagsAreTags();
    var after := mark.text + (CLOSE + rest);
    var all := mark.before + (OPEN + after);
    StartsWith(OPEN, after);
    FreePrefix(mark.before, OPEN + after, OPEN);
    assert all[|mark.before| + |OPEN|..] == after;
    StartsWith(CLOSE, rest);
    FreePrefix(mark.text, CLOSE + rest, CLOSE);
    assert after[..|mark.text|] == mark.text;
    assert after[|mark.text| + |CLOSE|..] == rest;
    OneMark(all, after, |mark.text|, rest);
  }

  lemma NothingMarked(tail: string)
    requires Ended(tail)
    ensures MarkSpans(tail) == []
  {
    hide Find, Utf16Length;
  }

  /** What is measured is what was marked, in order. */
  lemma {:induction false} MeasuringUndoesMarking(marks: seq<Mark>, tail: string)
    requires Unambiguous(marks) && Ended(tail)
    ensures MarkSpans(Highlighted(marks, tail)) == MarkedLengths(marks)
  {
    hide MarkSpans, Find, Utf16Length, Ended;
    if marks == [] {
      NothingMarked(tail);
    } else {
      MeasuringUndoesMarking(marks[1..], tail);
      MarkedFirst(marks[0], Highlighted(marks[1..], tail));
    }
  }

  /** An opening tag found first has no opening tag before it. */
  lemma NothingBefore(text: string, pattern: string, i: nat)
    requires Find(text, pattern) == Some(i) && pattern != []
    ensures Find(text[..i], pattern).None?
    ensures text == text[..i] + (pattern + text[i + |pattern|..])
  {
    assert text[..i] + text[i..] == text;
    forall j: nat
      ensures !At(text[..i], pattern, j)
    {
      if j + |pattern| <= i {
        AtInPrefix(text[..i], text[i..], pattern, j);
      }
    }
    NotFound(text[..i], pattern);
    assert text[i..i + |pattern|] == pattern;
  }

  lemma NothingIsUnambiguous()
    ensures Unambiguous([])
  {
  }

  lemma OneMoreMark(mark: Mark, marks: seq<Mark>)
    requires Unambiguous(marks) && Find(mark.before, OPEN).None? && Find(mark.text, CLOSE).None?
    ensures Unambiguous([mark] + marks)
  {
  }

  /** And every text is made so: the measure sees the marks of the one way to read it. */
  lemma {:induction false} EveryTextIsMarked(text: string) returns (marks: seq<Mark>, tail: string)
    ensures Highlighted(marks, tail) == text && Unambiguous(marks) && Ended(tail)
    decreases |text|
  {
    hide Find, Unambiguous;
    if Ended(text) {
      marks, tail := [], text;
      NothingIsUnambiguous();
    } else {
      var open := Find(text, OPEN).value;
      var after := text[open + |OPEN|..];
      var close := Find(after, CLOSE).value;
      NothingBefore(text, OPEN, open);
      NothingBefore(after, CLOSE, close);
      marks, tail := EveryTextIsMarked(after[close + |CLOSE|..]);
      var mark := Mark(text[..open], after[..close]);
      OneMoreMark(mark, marks);
      assert ([mark] + marks)[1..] == marks;
      marks := [mark] + marks;
    }
  }

  // ---------------------------------------------------------------------------------------------
  // Verses

  /** Rust's `split('*')`: the pieces between stars, at least one. */
  function Split(text: string): (pieces: seq<string>)
    ensures pieces != []
  {
    if text == [] then [[]]
    else
      var front, last := Split(text[..|text| - 1]), text[|text| - 1];
      if last == '*' then front + [[]]
      else front[..|front| - 1] + [front[|front| - 1] + [last]]
  }

  function Join(pieces: seq<string>): string {
    if pieces == [] then []
    else if |pieces| == 1 then pieces[0]
    else Join(pieces[..|pieces| - 1]) + "*" + pieces[|pieces| - 1]
  }

  lemma JoinLast(front: seq<string>, last: string, more: string)
    ensures Join(front + [last + more]) == Join(front + [last]) + more
  {
    assert (front + [last])[..|front|] == front && (front + [last + more])[..|front|] == front;
    if front != [] {
      assert Join(front) + "*" + (last + more) == Join(front) + "*" + last + more;
    }
  }

  lemma JoinNil(front: seq<string>)
    requires front != []
    ensures Join(front + [[]]) == Join(front) + "*"
  {
    assert (front + [[]])[..|front|] == front;
    assert Join(front) + "*" + [] == Join(front) + "*";
  }

  lemma StarStep(text: string)
    requires text != []
    ensures text[|text| - 1] == '*' ==> Split(text) == Split(text[..|text| - 1]) + [[]]
    ensures text[|text| - 1] != '*' ==>
              var front := Split(text[..|text| - 1]);
              Split(text) == front[..|front| - 1] + [front[|front| - 1] + [text[|text| - 1]]]
  {
  }

  lemma SplitNothing()
    ensures Split([]) == [[]]
  {
  }

  lemma {:induction false} NoStarLeft(text: string, i: nat)
    requires i < |Split(text)|
    ensures '*' !in Split(text)[i]
    decreases |text|
  {
    hide Split;
    if text == [] {
      SplitNothing();
    } else {
      var front := Split(text[..|text| - 1]);
      StarStep(text);
      if i < |front| {
        NoStarLeft(text[..|text| - 1], i);
      }
    }
  }

  lemma JoinOne(piece: string)
    ensures Join([piece]) == piece
  {
  }

  lemma {:induction false} JoinUndoesSplit(text: string)
    ensures Join(Split(text)) == text
  {
    hide Split, Join;
    if text == [] {
      SplitNothing();
      JoinOne([]);
    } else {
      var before, last := text[..|text| - 1], text[|text| - 1];
      var front := Split(before);
      JoinUndoesSplit(before);
      StarStep(text);
      assert text == before + [last];
      if last == '*' {
        JoinNil(front);
      } else {
        var init, piece := front[..|front| - 1], front[|front| - 1];
        assert init + [piece] == front;
        JoinLast(init, piece, [last]);
      }
    }
  }

  /** Joining what was split gives the text back, and no piece holds a star. */
  lemma SplitJoins(text: string)
    ensures Join(Split(text)) == text
    ensures forall i :: 0 <= i < |Split(text)| ==> '*' !in Split(text)[i]
  {
    hide Split, Join;
    JoinUndoesSplit(text);
    forall i | 0 <= i < |Split(text)|
      ensures '*' !in Split(text)[i]
    {
      NoStarLeft(text, i);
    }
  }

  function Piece(hemistichs: seq<string>, i: nat): Option<string> {
    if i < |hemistichs| then Some(hemistichs[i]) else None
  }

  /** The span of the verse that begins at hemistich i. */
  function VerseSpan(hemistichs: seq<string>, i: nat): nat {
    Larger(SpanOf(Piece(hemistichs, i)), SpanOf(Piece(hemistichs, i + 1)))
  }

  function VerseAt(hemistichs: seq<string>, i: nat): seq<string>
    requires i < |hemistichs|
  {
    hemistichs[i..if i + 2 <= |hemistichs| then i + 2 else |hemistichs|]
  }

  function LeadingVerse(content: string): string {
    Join(VerseAt(Split(content), 0))
  }

  lemma JoinInit(pieces: seq<string>)
    requires |pieces| >= 2
    ensures Join(pieces) == Join(pieces[..|pieces| - 1]) + ("*" + pieces[|pieces| - 1])
  {
  }

  /** Cutting the pieces in two cuts the text at a star. */
  lemma {:induction false} JoinCut(pieces: seq<string>, k: nat)
    requires 0 < k < |pieces|
    ensures Join(pieces) == Join(pieces[..k]) + ("*" + Join(pieces[k..]))
    decreases |pieces|
  {
    hide Join;
    var n := |pieces|;
    var front, last := pieces[..n - 1], pieces[n - 1];
    JoinInit(pieces);
    if k == n - 1 {
      assert pieces[k..] == [last];
      JoinOne(last);
    } else {
      JoinCut(front, k);
      JoinInit(pieces[k..]);
      assert front[..k] == pieces[..k] && front[k..] == pieces[k..][..n - 1 - k];
    }
  }

  function Stars(text: string): nat {
    if text == [] then 0 else Stars(text[..|text| - 1]) + if text[|text| - 1] == '*' then 1 else 0
  }

  lemma {:induction false} StarsConcat(a: string, b: string)
    ensures Stars(a + b) == Stars(a) + Stars(b)
  {
    if b == [] {
      assert a + b == a;
    } else {
      StarsConcat(a, b[..|b| - 1]);
      assert (a + b)[..|a + b| - 1] == a + b[..|b| - 1];
    }
  }

  lemma {:induction false} NoStars(piece: string)
    requires '*' !in piece
    ensures Stars(piece) == 0
  {
    if piece == [] {
    } else {
      NoStars(piece[..|piece| - 1]);
    }
  }

  lemma OneStar()
    ensures Stars("*") == 1
  {
    assert Stars("*"[..0]) == 0;
  }

  lemma VerseStars(hemistichs: seq<string>, i: nat)
    requires i < |hemistichs| && forall k :: 0 <= k < |hemistichs| ==> '*' !in hemistichs[k]
    ensures Stars(Join(VerseAt(hemistichs, i))) == if i + 2 <= |hemistichs| then 1 else 0
  {
    hide Join, Stars;
    NoStars(hemistichs[i]);
    JoinOne(hemistichs[i]);
    if i + 2 <= |hemistichs| {
      NoStars(hemistichs[i + 1]);
      JoinInit(VerseAt(hemistichs, i));
      assert VerseAt(hemistichs, i)[..1] == [hemistichs[i]];
      StarsConcat("*", hemistichs[i + 1]);
      StarsConcat(hemistichs[i], "*" + hemistichs[i + 1]);
      OneStar();
    } else {
      assert VerseAt(hemistichs, i) == [hemistichs[i]];
    }
  }

  /** A snippet is a passage of its text, verbatim: it begins at the beginning or after a star, ends at
      the end or before a star, and holds one star, or none if only one hemistich is left. */
  lemma VerseIsAPassage(text: string, i: nat) returns (before: string, after: string)
    requires i < |Split(text)|
    ensures text == before + Join(VerseAt(Split(text), i)) + after
    ensures if i == 0 then before == [] else before != [] && before[|before| - 1] == '*'
    ensures if i + 2 < |Split(text)| then after != [] && after[0] == '*' else after == []
    ensures Stars(Join(VerseAt(Split(text), i))) == if i + 2 <= |Split(text)| then 1 else 0
  {
    hide Split, Join, Stars;
    var pieces := Split(text);
    SplitJoins(text);
    VerseStars(pieces, i);
    before := if i == 0 then [] else Join(pieces[..i]) + "*";
    if i > 0 {
      JoinCut(pieces, i);
    } else {
      assert pieces[i..] == pieces;
    }
    assert text == before + Join(pieces[i..]);
    if i + 2 < |pieces| {
      JoinCut(pieces[i..], 2);
      assert pieces[i..][..2] == VerseAt(pieces, i);
      after := "*" + Join(pieces[i + 2..]);
      assert pieces[i..][2..] == pieces[i + 2..];
    } else {
      after := [];
      assert pieces[i..] == VerseAt(pieces, i);
    }
  }

  /** The first verse with the largest span, if any verse has a span at all. */
  ghost predicate IsBest(hemistichs: seq<string>, start: nat) {
    && start < |hemistichs| && start % 2 == 0 && VerseSpan(hemistichs, start) > 0
    && (forall i: nat :: i < |hemistichs| && i % 2 == 0 ==> VerseSpan(hemistichs, i) <= VerseSpan(hemistichs, start))
    && (forall i: nat :: i < start && i % 2 == 0 ==> VerseSpan(hemistichs, i) < VerseSpan(hemistichs, start))
  }

  lemma BestIsUnique(hemistichs: seq<string>, start: nat, other: nat)
    requires IsBest(hemistichs, start) && IsBest(hemistichs, other)
    ensures start == other
  {
    hide VerseSpan;
  }

  /** A verse is as long as the longer of its hemistichs, and the last may stand alone. */
  lemma VerseSpanMeans(hemistichs: seq<string>, i: nat, n: nat)
    requires i < |hemistichs|
    ensures VerseSpan(hemistichs, i) >= n
       <==> n == 0 || Longest(MarkSpans(hemistichs[i])) >= n
            || (i + 1 < |hemistichs| && Longest(MarkSpans(hemistichs[i + 1])) >= n)
  {
    hide Longest, MarkSpans;
  }

  lemma SpanOfVerse(hemistichs: seq<string>, i: nat)
    ensures VerseSpan(hemistichs, i) == Larger(SpanOf(Piece(hemistichs, i)), SpanOf(Piece(hemistichs, i + 1)))
  {
  }

  /** The first best verse of the highlighted text, or the opening verse of the content when nothing is
      highlighted. */
  method PoemSnippet(highlight: Option<string>, content: string) returns (snippet: string)
    ensures highlight.Some? && (exists start :: IsBest(Split(highlight.value), start)) ==>
              exists start :: IsBest(Split(highlight.value), start)
                              && snippet == Join(VerseAt(Split(highlight.value), start))
    ensures highlight.Some? && !(exists start :: IsBest(Split(highlight.value), start)) ==>
              && snippet == LeadingVerse(content)
              && forall i: nat :: i < |Split(highlight.value)| && i % 2 == 0 ==>
                   VerseSpan(Split(highlight.value), i) == 0
    ensures highlight.None? ==> snippet == LeadingVerse(content)
  {
    hide VerseSpan, SpanOf, Split, Join, LeadingVerse;
    if highlight.Some? {
      var hemistichs := Split(highlight.value);
      var bestStart: Option<nat> := None;
      var bestSpan: nat := 0;
      var index: nat := 0;
      while index < |hemistichs|
        invariant index % 2 == 0
        invariant bestStart.None? ==> bestSpan == 0
        invariant bestStart.Some? ==>
                    bestStart.value < index && bestStart.value < |hemistichs| && bestStart.value % 2 == 0
                    && bestSpan == VerseSpan(hemistichs, bestStart.value) > 0
                    && forall i: nat :: i < bestStart.value && i % 2 == 0 ==> VerseSpan(hemistichs, i) < bestSpan
        invariant forall i: nat :: i < index && i < |hemistichs| && i % 2 == 0 ==> VerseSpan(hemistichs, i) <= bestSpan
      {
        var first := LongestMarkSpan(Piece(hemistichs, index));
        var second := LongestMarkSpan(Piece(hemistichs, index + 1));
        var span := Larger(first, second);
        SpanOfVerse(hemistichs, index);
        if span > bestSpan {
          bestSpan, bestStart := span, Some(index);
        }
        index := index + 2;
      }
      if bestStart.Some? {
        assert IsBest(hemistichs, bestStart.value);
        return Join(VerseAt(hemistichs, bestStart.value));
      }
    }
    return LeadingVerse(content);
  }

  /** The opening verse is the content up to its second star, or all of it. */
  lemma LeadingVerseIsAPrefix(content: string) returns (rest: string)
    ensures content == LeadingVerse(content) + rest
    ensures if rest == [] then Stars(LeadingVerse(content)) <= 1
            else rest[0] == '*' && Stars(LeadingVerse(content)) == 1
  {
    hide Split, Join, Stars;
    var before;
    before, rest := VerseIsAPassage(content, 0);
    assert before + LeadingVerse(content) == LeadingVerse(content);
  }
}
