/** Rhyme evidence for a poem: which letter classes may carry the rhyme of each line, how many lines the
    commonest class explains, and the literal suffix that lines share. */
module Rhyme {
  import opened Wrappers
  import opened Collections

  /** Which letters sound alike: a letter's class, or the letter itself if the table is silent. */
  type SoundClasses = map<char, string>

  function NormalizeLetter(letter: char, table: SoundClasses): string {
    if letter in table then table[letter] else [letter]
  }

  predicate IsDiacritic(c: char) {
    '\U{064B}' <= c <= '\U{065F}' || c == '\U{0670}' || '\U{06D6}' <= c <= '\U{06ED}' || c == '\U{0640}'
  }

  predicate IsLetter(c: char) {
    '\U{0621}' <= c <= '\U{063A}' || '\U{0641}' <= c <= '\U{064A}'
  }

  function StripDiacritics(text: string): string {
    if text == [] then []
    else StripDiacritics(text[..|text| - 1]) + if IsDiacritic(text[|text| - 1]) then [] else [text[|text| - 1]]
  }

  function OnlyLetters(text: string): (letters: string)
    ensures forall i :: 0 <= i < |letters| ==> IsLetter(letters[i])
  {
    if text == [] then []
    else OnlyLetters(text[..|text| - 1]) + if IsLetter(text[|text| - 1]) then [text[|text| - 1]] else []
  }

  function LettersOnly(text: string): string {
    OnlyLetters(StripDiacritics(text))
  }

  /** The letters from hamza to ghayn and from fa to ya. */
  const HAMZA_TO_GHAYN := "\U{0621}\U{0622}\U{0623}\U{0624}\U{0625}\U{0626}\U{0627}"
    + "\U{0628}\U{0629}\U{062A}\U{062B}\U{062C}\U{062D}"
    + "\U{062E}\U{062F}\U{0630}\U{0631}\U{0632}\U{0633}\U{0634}\U{0635}\U{0636}\U{0637}\U{0638}\U{0639}\U{063A}"
  const FA_TO_YA := "\U{0641}\U{0642}\U{0643}\U{0644}\U{0645}\U{0646}\U{0647}\U{0648}\U{0649}\U{064A}"

  lemma LetterAt(i: nat)
    ensures |HAMZA_TO_GHAYN| == 26 && (i < 26 ==> HAMZA_TO_GHAYN[i] as int == 0x0621 + i)
    ensures |FA_TO_YA| == 10 && (i < 10 ==> FA_TO_YA[i] as int == 0x0641 + i)
  {
  }

  lemma LettersAreTheAlphabet(c: char)
    ensures IsLetter(c) <==> c in HAMZA_TO_GHAYN || c in FA_TO_YA
  {
    LetterAt(0);
    if '\U{0621}' <= c <= '\U{063A}' {
      LetterAt(c as int - 0x0621);
    } else if '\U{0641}' <= c <= '\U{064A}' {
      LetterAt(c as int - 0x0641);
    }
    if c in HAMZA_TO_GHAYN {
      var i :| 0 <= i < |HAMZA_TO_GHAYN| && HAMZA_TO_GHAYN[i] == c;
      LetterAt(i);
    }
    if c in FA_TO_YA {
      var i :| 0 <= i < |FA_TO_YA| && FA_TO_YA[i] == c;
      LetterAt(i);
    }
  }

  lemma {:induction false} StrippedConcat(a: string, b: string)
    ensures StripDiacritics(a + b) == StripDiacritics(a) + StripDiacritics(b)
  {
    if b == [] {
      assert a + b == a;
    } else {
      StrippedConcat(a, b[..|b| - 1]);
      assert (a + b)[..|a + b| - 1] == a + b[..|b| - 1];
    }
  }

  lemma {:induction false} LettersOfConcat(a: string, b: string)
    ensures OnlyLetters(a + b) == OnlyLetters(a) + OnlyLetters(b)
  {
    if b == [] {
      assert a + b == a;
    } else {
      LettersOfConcat(a, b[..|b| - 1]);
      assert (a + b)[..|a + b| - 1] == a + b[..|b| - 1];
    }
  }

  lemma LettersOfOne(c: char)
    ensures LettersOnly([c]) == if IsLetter(c) then [c] else []
  {
    assert [c][..0] == [];
    assert StripDiacritics([c]) == if IsDiacritic(c) then [] else [c];
    assert OnlyLetters([c]) == if IsLetter(c) then [c] else [];
    assert OnlyLetters([]) == [];
  }

  /** Stripping a line keeps the letters of the alphabet, in order, and nothing else: it works part by part,
      and character by character. */
  lemma LettersInOrder(a: string, b: string, c: char)
    ensures LettersOnly(a + b) == LettersOnly(a) + LettersOnly(b)
    ensures LettersOnly([c]) == if c in HAMZA_TO_GHAYN || c in FA_TO_YA then [c] else []
  {
    StrippedConcat(a, b);
    LettersOfConcat(StripDiacritics(a), StripDiacritics(b));
    LettersOfOne(c);
    LettersAreTheAlphabet(c);
  }

  const ALEF := '\U{0627}'
  const WAW := '\U{0648}'
  const WASL_VOWELS := {'\U{064A}', '\U{0627}', '\U{0649}', '\U{0648}', '\U{0647}', '\U{0629}'}

  /** The letters that the rhyme may stand before: the connecting vowels, and the plural's waw with alef. */
  lemma RhymeLetters()
    ensures forall c :: c in WASL_VOWELS <==> c in "ياىوهة"
    ensures [WAW, ALEF] == "وا"
  {
  }

  // ---------------------------------------------------------------------------------------------
  // Candidates of a line

  /** An insertion-ordered set, as a list without repeats. */
  function Add(items: seq<string>, item: string): seq<string> {
    if item in items then items else items + [item]
  }

  function Candidates(word: string, table: SoundClasses): seq<string> {
    if word == [] then []
    else
      var n := |word|;
      var one := [NormalizeLetter(word[n - 1], table)];
      var two := if n >= 3 && word[n - 1] == ALEF && word[n - 2] == WAW
                 then Add(one, NormalizeLetter(word[n - 3], table)) else one;
      if n >= 2 && word[n - 1] in WASL_VOWELS then Add(two, NormalizeLetter(word[n - 2], table)) else two
  }

  lemma AddToNone(item: string)
    ensures Add([], item) == [item]
  {
  }

  method RawiCandidates(ajuz: string, table: SoundClasses) returns (candidates: seq<string>)
    ensures candidates == Candidates(LettersOnly(ajuz), table)
  {
    hide Add, NormalizeLetter, LettersOnly;
    var word := LettersOnly(ajuz);
    candidates := [];
    if word == [] {
      return;
    }
    var last := word[|word| - 1];
    AddToNone(NormalizeLetter(last, table));
    candidates := Add(candidates, NormalizeLetter(last, table));
    if |word| >= 3 && word[|word| - 2] == WAW && last == ALEF {
      candidates := Add(candidates, NormalizeLetter(word[|word| - 3], table));
    }
    if |word| >= 2 && last in WASL_VOWELS {
      candidates := Add(candidates, NormalizeLetter(word[|word| - 2], table));
    }
  }

  /** The letters that may carry the rhyme of a word: candidates before the table. */
  ghost predicate MayRhyme(word: string, letter: char) {
    var n := |word|;
    || (n >= 1 && letter == word[n - 1])
    || (n >= 3 && word[n - 1] == ALEF && word[n - 2] == WAW && letter == word[n - 3])
    || (n >= 2 && word[n - 1] in WASL_VOWELS && letter == word[n - 2])
  }

  lemma CandidatesAreClasses(word: string, table: SoundClasses, sound: string)
    ensures sound in Candidates(word, table)
       <==> exists letter :: MayRhyme(word, letter) && sound == NormalizeLetter(letter, table)
  {
    var n := |word|;
    if sound in Candidates(word, table) {
      if sound == NormalizeLetter(word[n - 1], table) {
        assert MayRhyme(word, word[n - 1]);
      } else if n >= 2 && word[n - 1] in WASL_VOWELS && sound == NormalizeLetter(word[n - 2], table) {
        assert MayRhyme(word, word[n - 2]);
      } else {
        assert MayRhyme(word, word[n - 3]);
      }
    }
  }

  lemma CandidatesExist(word: string, table: SoundClasses)
    ensures Candidates(word, table) == [] <==> word == []
    ensures forall i, j :: 0 <= i < j < |Candidates(word, table)| ==>
              Candidates(word, table)[i] != Candidates(word, table)[j]
  {
  }

  // ---------------------------------------------------------------------------------------------
  // The tally

  /** The candidate sets of the lines that have letters, in line order. */
  function Sets(ajuz: seq<string>, table: SoundClasses): seq<seq<string>> {
    if ajuz == [] then []
    else
      var last := Candidates(LettersOnly(ajuz[|ajuz| - 1]), table);
      Sets(ajuz[..|ajuz| - 1], table) + if last == [] then [] else [last]
  }

  /** How many sets contain a class. */
  function Tally(sets: seq<seq<string>>, sound: string): nat {
    if sets == [] then 0
    else Tally(sets[..|sets| - 1], sound) + if sound in sets[|sets| - 1] then 1 else 0
  }

  /** A Map as JavaScript keeps it: keys in the order of their first insertion. */
  datatype Counts = Counts(order: seq<string>, per: map<string, nat>)

  ghost predicate IsCounts(counts: Counts) {
    && (forall i, j :: 0 <= i < j < |counts.order| ==> counts.order[i] != counts.order[j])
    && (forall c :: c in counts.order <==> c in counts.per)
  }

  function Bumped(counts: Counts, sound: string): Counts {
    if sound in counts.per then counts.(per := counts.per[sound := counts.per[sound] + 1])
    else Counts(counts.order + [sound], counts.per[sound := 1])
  }

  function CountOf(counts: Counts, sound: string): nat {
    if sound in counts.per then counts.per[sound] else 0
  }

  ghost predicate Distinct(items: seq<string>) {
    forall i, j :: 0 <= i < j < |items| ==> items[i] != items[j]
  }

  ghost predicate AllPositive(counts: Counts) {
    forall c :: c in counts.per ==> counts.per[c] >= 1
  }

  /** All classes of all sets, one set after another. */
  function Flat(sets: seq<seq<string>>): seq<string> {
    if sets == [] then [] else Flat(sets[..|sets| - 1]) + sets[|sets| - 1]
  }

  /** Where an item first occurs, or the length if it does not. */
  function Place(items: seq<string>, item: string): (place: nat)
    ensures place <= |items|
    ensures place < |items| <==> item in items
    ensures place < |items| ==> items[place] == item
    ensures forall i :: 0 <= i < place ==> items[i] != item
  {
    if items == [] then 0
    else
      var front := Place(items[..|items| - 1], item);
      if front < |items| - 1 || items[|items| - 1] == item then front else |items|
  }

  /** These are the items, each once, in the order of their first occurrence. */
  ghost predicate InFirstOrder(order: seq<string>, items: seq<string>) {
    && (forall c :: c in order <==> c in items)
    && (forall i, j :: 0 <= i < j < |order| ==> Place(items, order[i]) < Place(items, order[j]))
  }

  lemma PlaceSnoc(items: seq<string>, last: string, item: string)
    requires item in items
    ensures Place(items + [last], item) == Place(items, item)
  {
    assert (items + [last])[..|items|] == items;
  }

  lemma PlaceOfNew(items: seq<string>, last: string)
    requires last !in items
    ensures Place(items + [last], last) == |items|
  {
    assert (items + [last])[|items|] == last;
    assert forall i :: 0 <= i < |items| ==> (items + [last])[i] == items[i];
  }

  lemma BumpedInFirstOrder(counts: Counts, sound: string, items: seq<string>)
    requires IsCounts(counts) && InFirstOrder(counts.order, items)
    ensures InFirstOrder(Bumped(counts, sound).order, items + [sound])
  {
    hide Place;
    var order, all := Bumped(counts, sound).order, items + [sound];
    forall i, j | 0 <= i < j < |order|
      ensures Place(all, order[i]) < Place(all, order[j])
    {
      assert order[i] == counts.order[i] && counts.order[i] in items;
      PlaceSnoc(items, sound, order[i]);
      if order[j] in items {
        PlaceSnoc(items, sound, order[j]);
        assert j < |counts.order| && order[j] == counts.order[j];
      } else {
        PlaceOfNew(items, sound);
      }
    }
  }

  lemma BumpedAt(counts: Counts, sound: string, c: string)
    ensures CountOf(Bumped(counts, sound), c) == CountOf(counts, c) + if c == sound then 1 else 0
  {
  }

  lemma BumpedIsCounts(counts: Counts, sound: string)
    requires IsCounts(counts) && AllPositive(counts)
    ensures IsCounts(Bumped(counts, sound)) && AllPositive(Bumped(counts, sound))
    ensures Bumped(counts, sound).order != []
  {
  }

  lemma NoCounts()
    ensures IsCounts(Counts([], map[])) && AllPositive(Counts([], map[]))
    ensures forall c :: CountOf(Counts([], map[]), c) == 0
    ensures InFirstOrder([], [])
  {
  }

  lemma TallySnoc(sets: seq<seq<string>>, last: seq<string>, sound: string)
    ensures Tally([], sound) == 0
    ensures Tally(sets + [last], sound) == Tally(sets, sound) + if sound in last then 1 else 0
  {
    assert (sets + [last])[..|sets|] == sets;
  }

  lemma NothingFlat()
    ensures Flat([]) == []
  {
  }

  lemma FlatSnoc(sets: seq<seq<string>>, last: seq<string>)
    ensures Flat(sets + [last]) == Flat(sets) + last
  {
    assert (sets + [last])[..|sets|] == sets;
  }

  /** One set adds one to each of its classes. */
  method TallyOne(counts: Counts, one: seq<string>, ghost items: seq<string>) returns (after: Counts)
    requires IsCounts(counts) && AllPositive(counts) && Distinct(one) && InFirstOrder(counts.order, items)
    ensures IsCounts(after) && AllPositive(after) && InFirstOrder(after.order, items + one)
    ensures forall c :: CountOf(after, c) == CountOf(counts, c) + if c in one then 1 else 0
    ensures one != [] || counts.order != [] ==> after.order != []
  {
    hide IsCounts, AllPositive, CountOf, Bumped, InFirstOrder;
    after := counts;
    assert items + one[..0] == items;
    for k := 0 to |one|
      invariant IsCounts(after) && AllPositive(after) && InFirstOrder(after.order, items + one[..k])
      invariant forall c :: CountOf(after, c) == CountOf(counts, c) + if c in one[..k] then 1 else 0
      invariant k > 0 || counts.order != [] ==> after.order != []
    {
      ghost var before := after;
      BumpedIsCounts(after, one[k]);
      BumpedInFirstOrder(after, one[k], items + one[..k]);
      assert items + one[..k] + [one[k]] == items + one[..k + 1];
      after := Bumped(after, one[k]);
      assert one[k] !in one[..k] && one[..k + 1] == one[..k] + [one[k]];
      forall c
        ensures CountOf(after, c) == CountOf(counts, c) + if c in one[..k + 1] then 1 else 0
      {
        BumpedAt(before, one[k], c);
      }
    }
    assert one[..|one|] == one;
  }

  /** The nested loops that fill the tally. */
  method TallyAll(sets: seq<seq<string>>) returns (counts: Counts)
    requires forall i :: 0 <= i < |sets| ==> Distinct(sets[i])
    ensures IsCounts(counts) && (forall c :: CountOf(counts, c) == Tally(sets, c))
    ensures AllPositive(counts) && InFirstOrder(counts.order, Flat(sets))
    ensures (exists i :: 0 <= i < |sets| && sets[i] != []) ==> counts.order != []
  {
    hide IsCounts, AllPositive, CountOf, Tally, Distinct, InFirstOrder, Flat;
    counts := Counts([], map[]);
    NoCounts();
    NothingFlat();
    assert sets[..0] == [];
    forall c
      ensures Tally([], c) == 0
    {
      TallySnoc([], [], c);
    }
    for i := 0 to |sets|
      invariant IsCounts(counts) && AllPositive(counts) && InFirstOrder(counts.order, Flat(sets[..i]))
      invariant forall c :: CountOf(counts, c) == Tally(sets[..i], c)
      invariant (exists k :: 0 <= k < i && sets[k] != []) ==> counts.order != []
    {
      counts := TallyOne(counts, sets[i], Flat(sets[..i]));
      FlatSnoc(sets[..i], sets[i]);
      assert sets[..i + 1] == sets[..i] + [sets[i]];
      forall c
        ensures Tally(sets[..i + 1], c) == Tally(sets[..i], c) + if c in sets[i] then 1 else 0
      {
        TallySnoc(sets[..i], sets[i], c);
      }
    }
    assert sets[..|sets|] == sets;
  }

  /** `Math.max(...values)` over a tally, and the first class that attains it. */
  method FirstLargest(counts: Counts) returns (best: string, count: nat)
    requires IsCounts(counts) && counts.order != []
    requires AllPositive(counts)
    ensures best in counts.per && counts.per[best] == count
    ensures forall c :: c in counts.per ==> counts.per[c] <= count
    ensures exists i :: 0 <= i < |counts.order| && counts.order[i] == best
                        && forall j :: 0 <= j < i ==> counts.per[counts.order[j]] < count
  {
    best, count := counts.order[0], 0;
    ghost var at := 0;
    for i := 0 to |counts.order|
      invariant i == 0 ==> count == 0
      invariant i > 0 ==> at < i && counts.order[at] == best && counts.per[best] == count
      invariant forall j :: 0 <= j < i ==> counts.per[counts.order[j]] <= count
      invariant i > 0 ==> forall j :: 0 <= j < at ==> counts.per[counts.order[j]] < count
    {
      var sound := counts.order[i];
      if counts.per[sound] > count {
        best, count, at := sound, counts.per[sound], i;
      }
    }
  }

  /** The largest tally there is. */
  ghost predicate IsLargest(sets: seq<seq<string>>, most: nat) {
    (exists c :: Tally(sets, c) == most) && (forall c :: Tally(sets, c) <= most)
  }

  /** The score of a poem: the share of its lines that the commonest class explains. */
  ghost predicate IsScore(sets: seq<seq<string>>, score: real) {
    if sets == [] then score == 0.0
    else exists most: nat :: IsLargest(sets, most) && score == most as real / |sets| as real
  }

  lemma SetsSnoc(before: seq<string>, line: string, table: SoundClasses)
    ensures Sets([], table) == []
    ensures
      var candidates := Candidates(LettersOnly(line), table);
      Sets(before + [line], table) == Sets(before, table) + if candidates == [] then [] else [candidates]
  {
    assert (before + [line])[..|before|] == before;
  }

  method NonEmptySets(ajuz: seq<string>, table: SoundClasses) returns (sets: seq<seq<string>>)
    ensures sets == Sets(ajuz, table)
  {
    hide Sets, Candidates, LettersOnly;
    sets := [];
    SetsSnoc([], [], table);
    assert ajuz[..0] == [];
    for i := 0 to |ajuz|
      invariant sets == Sets(ajuz[..i], table)
    {
      var candidates := RawiCandidates(ajuz[i], table);
      SetsSnoc(ajuz[..i], ajuz[i], table);
      assert ajuz[..i + 1] == ajuz[..i] + [ajuz[i]];
      if candidates != [] {
        sets := sets + [candidates];
      }
    }
    assert ajuz[..|ajuz|] == ajuz;
  }

  lemma {:induction false} SetsAreSets(ajuz: seq<string>, table: SoundClasses)
    ensures forall i :: 0 <= i < |Sets(ajuz, table)| ==>
              Sets(ajuz, table)[i] != [] && Distinct(Sets(ajuz, table)[i])
  {
    if ajuz == [] {
    } else {
      SetsAreSets(ajuz[..|ajuz| - 1], table);
      CandidatesExist(LettersOnly(ajuz[|ajuz| - 1]), table);
    }
  }

  method RhymeScore(ajuz: seq<string>, table: SoundClasses) returns (score: real)
    ensures IsScore(Sets(ajuz, table), score)
  {
    hide Tally, Sets;
    var sets := NonEmptySets(ajuz, table);
    if sets == [] {
      return 0.0;
    }
    SetsAreSets(ajuz, table);
    assert sets[0] != [];
    var counts := TallyAll(sets);
    var best, count := FirstLargest(counts);
    assert Tally(sets, best) == CountOf(counts, best) == count;
    assert IsLargest(sets, count) by {
      forall c
        ensures Tally(sets, c) <= count
      {
        assert Tally(sets, c) == CountOf(counts, c);
      }
    }
    score := count as real / |sets| as real;
  }

  lemma ListedAtPlace(counts: Counts, c: string) returns (k: nat)
    requires IsCounts(counts) && CountOf(counts, c) >= 1
    ensures k < |counts.order| && counts.order[k] == c && counts.per[c] == CountOf(counts, c)
  {
    assert c in counts.order;
    k :| 0 <= k < |counts.order| && counts.order[k] == c;
  }

  lemma OrderIsPlace(order: seq<string>, items: seq<string>, i: nat, k: nat)
    requires InFirstOrder(order, items) && i < k < |order|
    ensures Place(items, order[i]) < Place(items, order[k])
  {
    hide Place;
  }

  /** The first largest of a tally in first order is the largest class that is met first. */
  lemma FirstLargestIsFirst(sets: seq<seq<string>>, counts: Counts, best: string, count: nat, c: string)
    requires IsCounts(counts) && InFirstOrder(counts.order, Flat(sets)) && count >= 1
    requires exists i :: 0 <= i < |counts.order| && counts.order[i] == best
                         && forall j :: 0 <= j < i ==> counts.per[counts.order[j]] < count
    requires CountOf(counts, c) == count
    ensures Place(Flat(sets), best) <= Place(Flat(sets), c)
  {
    hide Place, Flat, InFirstOrder;
    var i :| 0 <= i < |counts.order| && counts.order[i] == best
             && forall j :: 0 <= j < i ==> counts.per[counts.order[j]] < count;
    var k := ListedAtPlace(counts, c);
    if i < k {
      OrderIsPlace(counts.order, Flat(sets), i, k);
    }
  }

  method DominantRawi(ajuz: seq<string>, table: SoundClasses) returns (best: Option<string>)
    ensures best.None? <==> Sets(ajuz, table) == []
    ensures best.Some? ==> IsLargest(Sets(ajuz, table), Tally(Sets(ajuz, table), best.value))
    ensures best.Some? ==>
              var sets := Sets(ajuz, table);
              forall c :: Tally(sets, c) == Tally(sets, best.value) ==>
                Place(Flat(sets), best.value) <= Place(Flat(sets), c)
  {
    hide Tally, Sets, Flat, Place, InFirstOrder;
    var sets := NonEmptySets(ajuz, table);
    if sets == [] {
      return None;
    }
    SetsAreSets(ajuz, table);
    assert sets[0] != [];
    var counts := TallyAll(sets);
    var letter, count := FirstLargest(counts);
    assert Tally(sets, letter) == CountOf(counts, letter) == count;
    forall c
      ensures Tally(sets, c) <= count
      ensures Tally(sets, c) == count ==> Place(Flat(sets), letter) <= Place(Flat(sets), c)
    {
      assert Tally(sets, c) == CountOf(counts, c);
      if Tally(sets, c) == count {
        FirstLargestIsFirst(sets, counts, letter, count, c);
      }
    }
    best := Some(letter);
  }

  // ---------------------------------------------------------------------------------------------
  // What the score means

  ghost predicate InAll(sets: seq<seq<string>>, sound: string) {
    forall i :: 0 <= i < |sets| ==> sound in sets[i]
  }

  lemma {:induction false} TallyAtMost(sets: seq<seq<string>>, sound: string)
    ensures Tally(sets, sound) <= |sets|
    ensures Tally(sets, sound) == |sets| <==> InAll(sets, sound)
  {
    if sets == [] {
    } else {
      TallyAtMost(sets[..|sets| - 1], sound);
      assert forall i :: 0 <= i < |sets| - 1 ==> sets[..|sets| - 1][i] == sets[i];
    }
  }

  lemma {:induction false} TallyOfMember(sets: seq<seq<string>>, i: nat, sound: string)
    requires i < |sets| && sound in sets[i]
    ensures Tally(sets, sound) >= 1
  {
    if i == |sets| - 1 {
    } else {
      TallyOfMember(sets[..|sets| - 1], i, sound);
    }
  }

  /** There is only one largest tally, so only one score. */
  lemma ScoreIsUnique(sets: seq<seq<string>>, s: real, t: real)
    requires IsScore(sets, s) && IsScore(sets, t)
    ensures s == t
  {
    if sets != [] {
      var m: nat :| IsLargest(sets, m) && s == m as real / |sets| as real;
      var n: nat :| IsLargest(sets, n) && t == n as real / |sets| as real;
      var c :| Tally(sets, c) == m;
      var d :| Tally(sets, d) == n;
      assert m <= n <= m;
    }
  }

  lemma Fraction(part: nat, whole: nat)
    requires 1 <= whole
    ensures part >= 1 ==> part as real / whole as real > 0.0
    ensures part <= whole ==> part as real / whole as real <= 1.0
    ensures part as real / whole as real == 1.0 <==> part == whole
    ensures part as real / whole as real >= 0.0
  {
    var q, w := part as real / whole as real, whole as real;
    assert q * w == part as real;
    assert (q - 1.0) * w == part as real - w;
  }

  /** A score is zero for a poem without letters and otherwise positive, at most one, and one exactly when
      a single class is a candidate of every line that has letters. */
  lemma ScoreRange(ajuz: seq<string>, table: SoundClasses, score: real)
    requires IsScore(Sets(ajuz, table), score)
    ensures Sets(ajuz, table) == [] ==> score == 0.0
    ensures Sets(ajuz, table) != [] ==> 0.0 < score <= 1.0
    ensures Sets(ajuz, table) != [] ==>
              (score == 1.0 <==> exists sound :: InAll(Sets(ajuz, table), sound))
  {
    hide Tally, Sets;
    var sets := Sets(ajuz, table);
    if sets != [] {
      var most: nat :| IsLargest(sets, most) && score == most as real / |sets| as real;
      var best :| Tally(sets, best) == most;
      SetsAreSets(ajuz, table);
      TallyOfMember(sets, 0, sets[0][0]);
      assert Tally(sets, sets[0][0]) <= most;
      TallyAtMost(sets, best);
      Fraction(most, |sets|);
      if sound :| InAll(sets, sound) {
        TallyAtMost(sets, sound);
        assert Tally(sets, sound) <= most;
      }
    }
  }

  /** The score is the dominant class's tally over the number of lines with letters. */
  lemma ScoreIsDominantShare(ajuz: seq<string>, table: SoundClasses, score: real, dominant: string)
    requires IsScore(Sets(ajuz, table), score) && Sets(ajuz, table) != []
    requires IsLargest(Sets(ajuz, table), Tally(Sets(ajuz, table), dominant))
    ensures score == Tally(Sets(ajuz, table), dominant) as real / |Sets(ajuz, table)| as real
  {
    hide Tally, Sets;
    var sets := Sets(ajuz, table);
    assert IsScore(sets, Tally(sets, dominant) as real / |sets| as real);
    ScoreIsUnique(sets, score, Tally(sets, dominant) as real / |sets| as real);
  }

  // ---------------------------------------------------------------------------------------------
  // The order of lines does not matter

  function Explains(line: string, table: SoundClasses, sound: string): nat {
    if sound in Candidates(LettersOnly(line), table) then 1 else 0
  }

  function HasLetters(line: string): nat {
    if LettersOnly(line) != [] then 1 else 0
  }

  lemma {:induction false} SetsOfConcat(a: seq<string>, b: seq<string>, table: SoundClasses)
    ensures Sets(a + b, table) == Sets(a, table) + Sets(b, table)
  {
    hide Candidates, LettersOnly;
    if b == [] {
      assert a + b == a;
    } else {
      SetsOfConcat(a, b[..|b| - 1], table);
      assert (a + b)[..|a + b| - 1] == a + b[..|b| - 1];
    }
  }

  lemma {:induction false} TallyOfConcat(a: seq<seq<string>>, b: seq<seq<string>>, sound: string)
    ensures Tally(a + b, sound) == Tally(a, sound) + Tally(b, sound)
  {
    if b == [] {
      assert a + b == a;
    } else {
      TallyOfConcat(a, b[..|b| - 1], sound);
      assert (a + b)[..|a + b| - 1] == a + b[..|b| - 1];
    }
  }

  lemma TallyOfOne(one: seq<string>, sound: string)
    ensures Tally([one], sound) == if sound in one then 1 else 0
  {
    assert [one][..0] == [];
  }

  lemma TallyOfNothing(sound: string)
    ensures Tally([], sound) == 0
  {
  }

  lemma OneLine(line: string, table: SoundClasses, sound: string)
    ensures |Sets([line], table)| == HasLetters(line)
    ensures Tally(Sets([line], table), sound) == Explains(line, table, sound)
  {
    hide Candidates, LettersOnly, Tally;
    CandidatesExist(LettersOnly(line), table);
    assert [line][..0] == [];
    var only := Candidates(LettersOnly(line), table);
    assert Sets([line], table) == if only == [] then [] else [only];
    TallyOfOne(only, sound);
    TallyOfNothing(sound);
  }

  /** Taking out one line takes out what it explains. */
  lemma WithoutLine(a: seq<string>, line: string, b: seq<string>, table: SoundClasses, sound: string)
    ensures |Sets(a + [line] + b, table)| == |Sets(a + b, table)| + HasLetters(line)
    ensures Tally(Sets(a + [line] + b, table), sound)
         == Tally(Sets(a + b, table), sound) + Explains(line, table, sound)
  {
    hide Sets, Tally, HasLetters, Explains;
    SetsOfConcat(a, [line], table);
    SetsOfConcat(a + [line], b, table);
    SetsOfConcat(a, b, table);
    TallyOfConcat(Sets(a, table), Sets([line], table), sound);
    TallyOfConcat(Sets(a + [line], table), Sets(b, table), sound);
    TallyOfConcat(Sets(a, table), Sets(b, table), sound);
    OneLine(line, table, sound);
  }

  lemma {:induction false} PermutedTally(ajuz: seq<string>, others: seq<string>, table: SoundClasses, sound: string)
    requires multiset(ajuz) == multiset(others)
    ensures |Sets(ajuz, table)| == |Sets(others, table)|
    ensures Tally(Sets(ajuz, table), sound) == Tally(Sets(others, table), sound)
    decreases |ajuz|
  {
    hide Sets, Tally, HasLetters, Explains;
    if ajuz == [] {
      SameSize(ajuz, others);
    } else {
      var j := MatchFirst(ajuz, others);
      PermutedTally(ajuz[..0] + ajuz[0 + 1..], others[..j] + others[j + 1..], table, sound);
      assert ajuz == ajuz[..0] + [ajuz[0]] + ajuz[0 + 1..];
      assert others == others[..j] + [others[j]] + others[j + 1..];
      WithoutLine(ajuz[..0], ajuz[0], ajuz[0 + 1..], table, sound);
      WithoutLine(others[..j], others[j], others[j + 1..], table, sound);
    }
  }

  /** Reordering the lines of a poem leaves its score alone. */
  lemma ScoreIgnoresOrder(ajuz: seq<string>, others: seq<string>, table: SoundClasses, score: real)
    requires multiset(ajuz) == multiset(others) && IsScore(Sets(ajuz, table), score)
    ensures IsScore(Sets(others, table), score)
  {
    hide Sets, Tally;
    PermutedTally(ajuz, others, table, "");
    var sets, shuffled := Sets(ajuz, table), Sets(others, table);
    forall c
      ensures Tally(sets, c) == Tally(shuffled, c)
    {
      PermutedTally(ajuz, others, table, c);
    }
    if sets != [] {
      var most: nat :| IsLargest(sets, most) && score == most as real / |sets| as real;
      var best :| Tally(sets, best) == most;
      assert Tally(shuffled, best) == most;
      assert IsLargest(shuffled, most);
    }
  }

  // ---------------------------------------------------------------------------------------------
  // A coarser table

  /** Letters that sound alike under the first table do so under the second. */
  ghost predicate Coarsens(fine: SoundClasses, coarse: SoundClasses) {
    forall c, d :: NormalizeLetter(c, fine) == NormalizeLetter(d, fine) ==>
      NormalizeLetter(c, coarse) == NormalizeLetter(d, coarse)
  }

  lemma CoarserCandidate(word: string, fine: SoundClasses, coarse: SoundClasses, letter: char)
    requires Coarsens(fine, coarse) && NormalizeLetter(letter, fine) in Candidates(word, fine)
    ensures NormalizeLetter(letter, coarse) in Candidates(word, coarse)
  {
    hide Candidates, MayRhyme, NormalizeLetter;
    CandidatesAreClasses(word, fine, NormalizeLetter(letter, fine));
    var own :| MayRhyme(word, own) && NormalizeLetter(letter, fine) == NormalizeLetter(own, fine);
    CandidatesAreClasses(word, coarse, NormalizeLetter(own, coarse));
  }

  /** The last line adds what it explains. */
  lemma LastLine(ajuz: seq<string>, table: SoundClasses, sound: string)
    requires ajuz != []
    ensures |Sets(ajuz, table)| == |Sets(ajuz[..|ajuz| - 1], table)| + HasLetters(ajuz[|ajuz| - 1])
    ensures Tally(Sets(ajuz, table), sound)
         == Tally(Sets(ajuz[..|ajuz| - 1], table), sound) + Explains(ajuz[|ajuz| - 1], table, sound)
  {
    hide Sets, Tally, HasLetters, Explains;
    var n := |ajuz| - 1;
    assert ajuz == ajuz[..n] + [ajuz[n]] + [] && ajuz[..n] + [] == ajuz[..n];
    WithoutLine(ajuz[..n], ajuz[n], [], table, sound);
  }

  lemma {:induction false} CoarserTally(ajuz: seq<string>, fine: SoundClasses, coarse: SoundClasses, letter: char)
    requires Coarsens(fine, coarse)
    ensures |Sets(ajuz, fine)| == |Sets(ajuz, coarse)|
    ensures Tally(Sets(ajuz, fine), NormalizeLetter(letter, fine))
         <= Tally(Sets(ajuz, coarse), NormalizeLetter(letter, coarse))
  {
    if ajuz == [] {
    } else {
      hide Candidates, NormalizeLetter, LettersOnly, Coarsens, Sets, Tally;
      var front, line := ajuz[..|ajuz| - 1], ajuz[|ajuz| - 1];
      CoarserTally(front, fine, coarse, letter);
      LastLine(ajuz, fine, NormalizeLetter(letter, fine));
      LastLine(ajuz, coarse, NormalizeLetter(letter, coarse));
      if NormalizeLetter(letter, fine) in Candidates(LettersOnly(line), fine) {
        CoarserCandidate(LettersOnly(line), fine, coarse, letter);
      }
    }
  }

  lemma {:induction false} TalliedClassHasALetter(ajuz: seq<string>, table: SoundClasses, sound: string)
    returns (letter: char)
    requires Tally(Sets(ajuz, table), sound) >= 1
    ensures NormalizeLetter(letter, table) == sound
  {
    hide Candidates, NormalizeLetter, LettersOnly;
    var word := LettersOnly(ajuz[|ajuz| - 1]);
    LastLine(ajuz, table, sound);
    if sound in Candidates(word, table) {
      CandidatesAreClasses(word, table, sound);
      letter :| MayRhyme(word, letter) && sound == NormalizeLetter(letter, table);
    } else {
      letter := TalliedClassHasALetter(ajuz[..|ajuz| - 1], table, sound);
    }
  }

  lemma Ordered(m: nat, n: nat, whole: nat)
    requires m <= n && whole >= 1
    ensures m as real / whole as real <= n as real / whole as real
  {
    var w := whole as real;
    var p, q := m as real / w, n as real / w;
    assert p * w == m as real && q * w == n as real;
    assert (q - p) * w == n as real - m as real;
  }

  /** Hearing fewer differences never lowers a score. */
  lemma CoarserNeverDrops(ajuz: seq<string>, fine: SoundClasses, coarse: SoundClasses, s: real, t: real)
    requires Coarsens(fine, coarse)
    requires IsScore(Sets(ajuz, fine), s) && IsScore(Sets(ajuz, coarse), t)
    ensures s <= t
  {
    hide Sets, Tally, Coarsens, NormalizeLetter;
    CoarserTally(ajuz, fine, coarse, 'a');
    var sets := Sets(ajuz, fine);
    if sets != [] {
      var m: nat :| IsLargest(sets, m) && s == m as real / |sets| as real;
      var n: nat :| IsLargest(Sets(ajuz, coarse), n) && t == n as real / |sets| as real;
      SetsAreSets(ajuz, fine);
      TallyOfMember(sets, 0, sets[0][0]);
      assert Tally(sets, sets[0][0]) <= m;
      var best :| Tally(sets, best) == m;
      var letter := TalliedClassHasALetter(ajuz, fine, best);
      CoarserTally(ajuz, fine, coarse, letter);
      assert Tally(Sets(ajuz, coarse), NormalizeLetter(letter, coarse)) <= n;
      Ordered(m, n, |sets|);
    }
  }

  const DEFAULT_SOUND_CLASSES: SoundClasses := map[
    '\U{0621}' := "\U{0621}", '\U{0624}' := "\U{0621}", '\U{0626}' := "\U{0621}",
    '\U{0627}' := "\U{0627}", '\U{0649}' := "\U{0627}",
    '\U{0629}' := "\U{0629}", '\U{0647}' := "\U{0629}", '\U{062A}' := "\U{0629}"]

  const OPTIONAL_SOUND_CLASSES: SoundClasses := map['\U{0636}' := "\U{0636}", '\U{0638}' := "\U{0636}"]

  /** One group of letters. */
  predicate Among(c: char, d: char, group: string) {
    c in group && d in group
  }

  /** Under both tables a class is one letter. */
  lemma NormalizedFirst(c: char)
    ensures NormalizeLetter(c, DEFAULT_SOUND_CLASSES)
         == [if c in "ءؤئ" then 'ء' else if c in "اى" then 'ا' else if c in "ةهت" then 'ة' else c]
    ensures NormalizeLetter(c, DEFAULT_SOUND_CLASSES + OPTIONAL_SOUND_CLASSES)
         == [if c in "ءؤئ" then 'ء' else if c in "اى" then 'ا' else if c in "ةهت" then 'ة'
             else if c in "ضظ" then 'ض' else c]
  {
  }

  /** By default the forms of hamza sound alike, the two alefs, and the three letters that end a word in t or
      h; the optional classes add dad and zah. No other two letters sound alike. */
  lemma SoundAlike(c: char, d: char)
    ensures NormalizeLetter(c, DEFAULT_SOUND_CLASSES) == NormalizeLetter(d, DEFAULT_SOUND_CLASSES)
       <==> c == d || Among(c, d, "ءؤئ") || Among(c, d, "اى") || Among(c, d, "ةهت")
    ensures NormalizeLetter(c, DEFAULT_SOUND_CLASSES + OPTIONAL_SOUND_CLASSES)
         == NormalizeLetter(d, DEFAULT_SOUND_CLASSES + OPTIONAL_SOUND_CLASSES)
       <==> c == d || Among(c, d, "ءؤئ") || Among(c, d, "اى") || Among(c, d, "ةهت") || Among(c, d, "ضظ")
  {
    NormalizedFirst(c);
    NormalizedFirst(d);
  }

  lemma OptionalOnlyMovesZah(c: char)
    ensures NormalizeLetter(c, DEFAULT_SOUND_CLASSES + OPTIONAL_SOUND_CLASSES)
         == if c == '\U{0638}' then "\U{0636}" else NormalizeLetter(c, DEFAULT_SOUND_CLASSES)
    ensures NormalizeLetter(c, DEFAULT_SOUND_CLASSES) == "\U{0638}" <==> c == '\U{0638}'
  {
    assert "\U{0638}"[0] == '\U{0638}';
    assert NormalizeLetter(c, DEFAULT_SOUND_CLASSES) != [] ;
    assert "\U{0621}"[0] != '\U{0638}' && "\U{0627}"[0] != '\U{0638}' && "\U{0629}"[0] != '\U{0638}';
  }

  /** Adding the optional classes to the default ones is such a coarsening. */
  lemma OptionalClassesCoarsen()
    ensures Coarsens(DEFAULT_SOUND_CLASSES, DEFAULT_SOUND_CLASSES + OPTIONAL_SOUND_CLASSES)
  {
    hide NormalizeLetter;
    var fine, coarse := DEFAULT_SOUND_CLASSES, DEFAULT_SOUND_CLASSES + OPTIONAL_SOUND_CLASSES;
    forall c, d | NormalizeLetter(c, fine) == NormalizeLetter(d, fine)
      ensures NormalizeLetter(c, coarse) == NormalizeLetter(d, coarse)
    {
      OptionalOnlyMovesZah(c);
      OptionalOnlyMovesZah(d);
    }
  }

  // ---------------------------------------------------------------------------------------------
  // Literal suffixes and anchors

  function Words(ajuz: seq<string>): seq<string> {
    if ajuz == [] then []
    else
      var last := LettersOnly(ajuz[|ajuz| - 1]);
      Words(ajuz[..|ajuz| - 1]) + if last == [] then [] else [last]
  }

  /** The k-th letter from the end, counting from zero. */
  function FromEnd(word: string, k: nat): char
    requires k < |word|
  {
    word[|word| - 1 - k]
  }

  /** All the words have k more letters and agree on the last k. */
  ghost predicate Share(words: seq<string>, k: nat) {
    && (forall i :: 0 <= i < |words| ==> k <= |words[i]|)
    && (forall i, p :: 0 <= i < |words| && 0 <= p < k ==> FromEnd(words[i], p) == FromEnd(words[0], p))
  }

  /** The length of the longest literal suffix that all the words share. */
  method SharedLiteralSuffixLength(ajuz: seq<string>) returns (shared: nat)
    ensures Words(ajuz) == [] ==> shared == 0
    ensures Words(ajuz) != [] ==> Share(Words(ajuz), shared) && !Share(Words(ajuz), shared + 1)
  {
    var words := Words(ajuz);
    shared := 0;
    if words == [] {
      return;
    }
    var shortest := |words[0]|;
    ghost var at := 0;
    for i := 0 to |words|
      invariant forall j :: 0 <= j < i ==> shortest <= |words[j]|
      invariant 0 <= at < |words| && shortest == |words[at]|
    {
      if |words[i]| < shortest {
        shortest, at := |words[i]|, i;
      }
    }
    while shared < shortest
      invariant shared <= shortest && Share(words, shared)
    {
      var same := true;
      for i := 0 to |words|
        invariant same <==> forall j :: 0 <= j < i ==> FromEnd(words[j], shared) == FromEnd(words[0], shared)
      {
        same := same && FromEnd(words[i], shared) == FromEnd(words[0], shared);
      }
      if !same {
        break;
      }
      shared := shared + 1;
    }
  }

  const MIN_ANCHOR_AJUZ: nat := 4
  const MIN_ANCHOR_SUFFIX: nat := 2

  /** A poem of at least four lines whose words share at least two letters at the end. */
  ghost predicate IsAnchorPoem(ajuz: seq<string>) {
    |ajuz| >= 4 && Words(ajuz) != [] && Share(Words(ajuz), 2)
  }

  lemma SharedIsDownwardClosed(words: seq<string>, k: nat, j: nat)
    requires Share(words, k) && j <= k
    ensures Share(words, j)
  {
  }

  method IsAnchor(ajuz: seq<string>) returns (anchor: bool)
    ensures anchor <==> IsAnchorPoem(ajuz)
  {
    var shared := SharedLiteralSuffixLength(ajuz);
    anchor := |ajuz| >= MIN_ANCHOR_AJUZ && shared >= MIN_ANCHOR_SUFFIX;
    if Words(ajuz) != [] {
      if shared >= MIN_ANCHOR_SUFFIX {
        SharedIsDownwardClosed(Words(ajuz), shared, MIN_ANCHOR_SUFFIX);
      } else if Share(Words(ajuz), MIN_ANCHOR_SUFFIX) {
        SharedIsDownwardClosed(Words(ajuz), MIN_ANCHOR_SUFFIX, shared + 1);
      }
    }
  }

  lemma {:induction false} SetsComeFromWords(ajuz: seq<string>, table: SoundClasses)
    ensures |Sets(ajuz, table)| == |Words(ajuz)|
    ensures forall i :: 0 <= i < |Words(ajuz)| ==>
              Words(ajuz)[i] != [] && Sets(ajuz, table)[i] == Candidates(Words(ajuz)[i], table)
  {
    hide Candidates, LettersOnly;
    if ajuz == [] {
    } else {
      SetsComeFromWords(ajuz[..|ajuz| - 1], table);
      CandidatesExist(LettersOnly(ajuz[|ajuz| - 1]), table);
    }
  }

  /** An anchor rhymes perfectly under every table: its last letter carries every line. */
  lemma AnchorsScoreOne(ajuz: seq<string>, table: SoundClasses, score: real)
    requires IsAnchorPoem(ajuz) && IsScore(Sets(ajuz, table), score)
    ensures score == 1.0
  {
    hide Sets, IsScore, Candidates, Words;
    var words, sets := Words(ajuz), Sets(ajuz, table);
    SetsComeFromWords(ajuz, table);
    var last := FromEnd(words[0], 0);
    forall i | 0 <= i < |sets|
      ensures NormalizeLetter(last, table) in sets[i]
    {
      assert FromEnd(words[i], 0) == last;
      CandidatesAreClasses(words[i], table, NormalizeLetter(last, table));
      assert MayRhyme(words[i], last);
    }
    assert InAll(sets, NormalizeLetter(last, table));
    ScoreRange(ajuz, table, score);
  }

  const MIN_RHYME_SCORE: real := 0.9

  lemma AnchorsVerify(ajuz: seq<string>, table: SoundClasses, score: real)
    requires IsScore(Sets(ajuz, table), score)
    ensures IsAnchorPoem(ajuz) ==> score >= 0.9
  {
    if IsAnchorPoem(ajuz) {
      AnchorsScoreOne(ajuz, table, score);
    }
  }

  /** The poem's score reaches nine tenths. */
  ghost predicate Verifies(ajuz: seq<string>, table: SoundClasses) {
    exists score :: IsScore(Sets(ajuz, table), score) && score >= 0.9
  }

  ghost function VerifiedAmong(anchors: seq<seq<string>>, table: SoundClasses, n: nat): nat
    requires n <= |anchors|
  {
    if n == 0 then 0 else VerifiedAmong(anchors, table, n - 1) + if Verifies(anchors[n - 1], table) then 1 else 0
  }

  lemma VerifiesByScore(ajuz: seq<string>, table: SoundClasses, score: real)
    requires IsScore(Sets(ajuz, table), score)
    ensures Verifies(ajuz, table) <==> score >= 0.9
    ensures IsAnchorPoem(ajuz) ==> Verifies(ajuz, table)
  {
    hide IsScore, IsAnchorPoem;
    AnchorsVerify(ajuz, table, score);
    if other :| IsScore(Sets(ajuz, table), other) && other >= 0.9 {
      ScoreIsUnique(Sets(ajuz, table), score, other);
    }
  }

  /** The share of anchors that the table verifies; it cannot miss one. */
  method AnchorRecall(anchors: seq<seq<string>>, table: SoundClasses) returns (recall: real)
    ensures anchors == [] ==> recall == 1.0
    ensures anchors != [] ==> recall == VerifiedAmong(anchors, table, |anchors|) as real / |anchors| as real
    ensures (forall i :: 0 <= i < |anchors| ==> IsAnchorPoem(anchors[i])) ==> recall == 1.0
    ensures 0.0 <= recall <= 1.0
  {
    hide Verifies, IsScore, IsAnchorPoem;
    if anchors == [] {
      return 1.0;
    }
    var verified: nat := 0;
    for i := 0 to |anchors|
      invariant verified == VerifiedAmong(anchors, table, i) <= i
      invariant (forall j :: 0 <= j < i ==> IsAnchorPoem(anchors[j])) ==> verified == i
    {
      var score := RhymeScore(anchors[i], table);
      VerifiesByScore(anchors[i], table, score);
      if score >= MIN_RHYME_SCORE {
        verified := verified + 1;
      }
    }
    Fraction(verified, |anchors|);
    recall := verified as real / |anchors| as real;
  }
}
