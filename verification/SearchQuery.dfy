/** The search parameters on the wire: what the web client and the smoke tests print, what the route
    reads, and that the three agree. */
module SearchQuery {
  import opened Wrappers
  import opened Integers
  import opened Collections
  import opened Decimal
  import opened QueryString
  import opened Utf16
  import Paging

  // ---------------------------------------------------------------------------------------------
  // The encoders

  datatype Field =
    | Scalar(key: string, value: Option<string>)
    | List(key: string, values: seq<string>)

  /** The web client repeats a list's key; the smoke tests subscript it; and the decoder also knows the key
      with empty brackets. */
  datatype Style = Repeated | Indexed | Bracketed

  /** The key of a list's i-th item. */
  function ItemKey(style: Style, key: string, i: nat): string {
    match style
    case Repeated => key
    case Indexed => IndexedKey(key, i)
    case Bracketed => AppendedKey(key)
  }

  function ListPairs(style: Style, key: string, values: seq<string>, n: nat): seq<Pair>
    requires n <= |values|
  {
    if n == 0 then []
    else
      ListPairs(style, key, values, n - 1)
      + [(ItemKey(style, key, n - 1), values[n - 1])]
  }

  function FieldPairs(style: Style, field: Field): seq<Pair> {
    match field
    case Scalar(key, value) => if value.Some? then [(key, value.value)] else []
    case List(key, values) => ListPairs(style, key, values, |values|)
  }

  function AllPairs(style: Style, fields: seq<Field>, n: nat): seq<Pair>
    requires n <= |fields|
  {
    if n == 0 then [] else AllPairs(style, fields, n - 1) + FieldPairs(style, fields[n - 1])
  }

  lemma NextField(style: Style, fields: seq<Field>, n: nat)
    requires n < |fields|
    ensures AllPairs(style, fields, n + 1) == AllPairs(style, fields, n) + FieldPairs(style, fields[n])
  {
  }

  lemma NoFields(style: Style, fields: seq<Field>)
    ensures AllPairs(style, fields, 0) == []
  {
  }

  lemma NextItem(style: Style, key: string, values: seq<string>, n: nat)
    requires n < |values|
    ensures ListPairs(style, key, values, n + 1)
         == ListPairs(style, key, values, n) + [(ItemKey(style, key, n), values[n])]
  {
  }

  lemma NoItems(style: Style, key: string, values: seq<string>)
    ensures ListPairs(style, key, values, 0) == []
  {
  }

  /** The client's serializer: lists become repeated keys, in field order. */
  method SerializeQuery(fields: seq<Field>) returns (pairs: seq<Pair>)
    ensures pairs == AllPairs(Repeated, fields, |fields|)
  {
    hide AllPairs, ListPairs, IndexedKey;
    pairs := [];
    NoFields(Repeated, fields);
    for i := 0 to |fields|
      invariant pairs == AllPairs(Repeated, fields, i)
    {
      NextField(Repeated, fields, i);
      match fields[i] {
        case List(key, values) =>
          ghost var before := pairs;
          NoItems(Repeated, key, values);
          for k := 0 to |values|
            invariant pairs == before + ListPairs(Repeated, key, values, k)
          {
            NextItem(Repeated, key, values, k);
            pairs := pairs + [(key, values[k])];
          }
        case Scalar(key, value) =>
          if value.Some? {
            pairs := pairs + [(key, value.value)];
          }
      }
    }
  }

  /** The smoke tests' builder: lists become subscripted keys, in field order. */
  method SearchUrlParts(fields: seq<Field>) returns (parts: seq<Pair>)
    ensures parts == AllPairs(Indexed, fields, |fields|)
  {
    hide AllPairs, ListPairs, IndexedKey;
    parts := [];
    NoFields(Indexed, fields);
    for i := 0 to |fields|
      invariant parts == AllPairs(Indexed, fields, i)
    {
      NextField(Indexed, fields, i);
      match fields[i] {
        case List(key, values) =>
          ghost var before := parts;
          NoItems(Indexed, key, values);
          for index: nat := 0 to |values|
            invariant parts == before + ListPairs(Indexed, key, values, index)
          {
            NextItem(Indexed, key, values, index);
            parts := parts + [(IndexedKey(key, index), values[index])];
          }
        case Scalar(key, value) =>
          if value.Some? {
            parts := parts + [(key, value.value)];
          }
      }
    }
  }

  // ---------------------------------------------------------------------------------------------
  // What the encoders' pairs address

  ghost predicate Proper(fields: seq<Field>) {
    && (forall i :: 0 <= i < |fields| ==> PlainKey(fields[i].key))
    && (forall i :: 0 <= i < |fields| && fields[i].List? ==> |fields[i].values| <= USIZE_MAX)
    && (forall i, j :: 0 <= i < j < |fields| ==> fields[i].key != fields[j].key)
  }

  lemma {:induction false} AddressedConcat(a: seq<Pair>, b: seq<Pair>, name: string, s: Subscript)
    ensures Addressed(a + b, name, s) == Addressed(a, name, s) + Addressed(b, name, s)
  {
    hide SplitSubscript;
    if b == [] {
      assert a + b == a;
    } else {
      AddressedConcat(a, b[..|b| - 1], name, s);
      assert (a + b)[..|a + b| - 1] == a + b[..|b| - 1];
    }
  }

  lemma AddressedOne(pair: Pair, name: string, s: Subscript)
    ensures Addressed([pair], name, s) == if SplitSubscript(pair.0) == (name, s) then [pair.1] else []
  {
    hide SplitSubscript;
    assert [pair][..0] == [];
  }

  /** What a whole list is read as under each subscript. */
  function ListAt(style: Style, values: seq<string>, n: nat, s: Subscript): seq<string>
    requires n <= |values|
  {
    match style
    case Repeated => if s == Bare then values[..n] else []
    case Indexed => if s.Index? && s.index < n then [values[s.index]] else []
    case Bracketed => if s == Appended then values[..n] else []
  }

  /** One more item adds its value under its own subscript. */
  lemma ItemAddresses(style: Style, key: string, values: seq<string>, i: nat, name: string, s: Subscript)
    requires i < |values| && PlainKey(key) && i < USIZE_MAX
    ensures
      var item := Addressed([(ItemKey(style, key, i), values[i])], name, s);
      if name == key then ListAt(style, values, i, s) + item == ListAt(style, values, i + 1, s) else item == []
  {
    hide SplitSubscript, Addressed, IndexedKey;
    PlainKeyIsBare(key);
    IndexedKeySplits(key, i);
    SubscriptSplits(key, "");
    AddressedOne((ItemKey(style, key, i), values[i]), name, s);
    assert values[..i + 1] == values[..i] + [values[i]];
  }

  lemma AddressedNothing(name: string, s: Subscript)
    ensures Addressed([], name, s) == []
  {
  }

  lemma {:induction false} ListAddresses(
    style: Style, key: string, values: seq<string>, n: nat, name: string, s: Subscript)
    requires n <= |values| && PlainKey(key) && n <= USIZE_MAX
    ensures Addressed(ListPairs(style, key, values, n), name, s)
         == if name == key then ListAt(style, values, n, s) else []
  {
    hide SplitSubscript, Addressed, IndexedKey;
    if n == 0 {
      AddressedNothing(name, s);
    } else {
      ListAddresses(style, key, values, n - 1, name, s);
      var pair := (ItemKey(style, key, n - 1), values[n - 1]);
      ItemAddresses(style, key, values, n - 1, name, s);
      AddressedConcat(ListPairs(style, key, values, n - 1), [pair], name, s);
    }
  }

  /** What a field is read as under each subscript. */
  function FieldAt(style: Style, field: Field, s: Subscript): seq<string> {
    match field
    case Scalar(_, value) => if s == Bare && value.Some? then [value.value] else []
    case List(_, values) => ListAt(style, values, |values|, s)
  }

  lemma FieldAddresses(style: Style, field: Field, name: string, s: Subscript)
    requires PlainKey(field.key) && (field.List? ==> |field.values| <= USIZE_MAX)
    ensures Addressed(FieldPairs(style, field), name, s) == if name == field.key then FieldAt(style, field, s) else []
  {
    hide SplitSubscript, Addressed;
    match field {
      case Scalar(key, value) =>
        PlainKeyIsBare(key);
        AddressedNothing(name, s);
        if value.Some? {
          AddressedOne((key, value.value), name, s);
        }
      case List(key, values) => ListAddresses(style, key, values, |values|, name, s);
    }
  }

  lemma {:induction false} FieldsAddress(style: Style, fields: seq<Field>, n: nat, name: string, s: Subscript)
    requires n <= |fields| && Proper(fields)
    ensures forall i :: 0 <= i < n && fields[i].key == name ==>
              Addressed(AllPairs(style, fields, n), name, s) == FieldAt(style, fields[i], s)
    ensures (forall i :: 0 <= i < n ==> fields[i].key != name) ==> Addressed(AllPairs(style, fields, n), name, s) == []
  {
    hide SplitSubscript, Addressed, FieldPairs, FieldAt;
    if n == 0 {
      AddressedNothing(name, s);
    } else {
      FieldsAddress(style, fields, n - 1, name, s);
      FieldAddresses(style, fields[n - 1], name, s);
      AddressedConcat(AllPairs(style, fields, n - 1), FieldPairs(style, fields[n - 1]), name, s);
    }
  }

  // ---------------------------------------------------------------------------------------------
  // The order of pairs

  lemma AddressedWithout(pairs: seq<Pair>, j: nat, name: string, s: Subscript)
    requires j < |pairs|
    ensures multiset(Addressed(pairs, name, s))
         == multiset(Addressed(pairs[..j] + pairs[j + 1..], name, s)) + multiset(Addressed([pairs[j]], name, s))
  {
    hide Addressed;
    AddressedConcat(pairs[..j], pairs[j + 1..], name, s);
    AddressedConcat(pairs[..j] + [pairs[j]], pairs[j + 1..], name, s);
    AddressedConcat(pairs[..j], [pairs[j]], name, s);
    assert pairs == pairs[..j] + [pairs[j]] + pairs[j + 1..];
  }

  /** Reordering pairs only reorders the values of a name. */
  lemma {:induction false} AddressedPermuted(pairs: seq<Pair>, others: seq<Pair>, name: string, s: Subscript)
    requires multiset(pairs) == multiset(others)
    ensures multiset(Addressed(pairs, name, s)) == multiset(Addressed(others, name, s))
    decreases |pairs|
  {
    hide Addressed;
    if pairs == [] {
      SameSize(pairs, others);
    } else {
      var j := MatchFirst(pairs, others);
      AddressedPermuted(pairs[..0] + pairs[0 + 1..], others[..j] + others[j + 1..], name, s);
      AddressedWithout(others, j, name, s);
      AddressedWithout(pairs, 0, name, s);
    }
  }

  lemma AtMostOneSame(a: seq<string>, b: seq<string>)
    requires multiset(a) == multiset(b) && |a| <= 1
    ensures a == b
  {
    assert |multiset(a)| == |a| && |multiset(b)| == |b|;
    if |a| == 1 {
      assert a[0] in multiset(a);
    }
  }

  // ---------------------------------------------------------------------------------------------
  // Both styles are read alike

  /** A query in which every field reads back as it was given; an empty list reads as absent. */
  ghost predicate ReadsField(query: Query, field: Field) {
    match field
    case Scalar(key, value) => ScalarOf(EntryOf(query, key)) == Ok(value)
    case List(key, values) => ArrayOf(EntryOf(query, key)) == Ok(if values == [] then None else Some(values))
  }

  ghost predicate AddressesField(style: Style, pairs: seq<Pair>, field: Field) {
    forall s :: Addressed(pairs, field.key, s) == FieldAt(style, field, s)
  }

  lemma EncodedField(style: Style, fields: seq<Field>, i: nat)
    requires Proper(fields) && i < |fields|
    ensures AddressesField(style, AllPairs(style, fields, |fields|), fields[i])
  {
    hide Addressed, FieldAt, AllPairs;
    forall s
      ensures Addressed(AllPairs(style, fields, |fields|), fields[i].key, s) == FieldAt(style, fields[i], s)
    {
      FieldsAddress(style, fields, |fields|, fields[i].key, s);
    }
  }

  /** No indexed pair set addresses one place twice, so its order does not matter. */
  lemma ShuffledField(fields: seq<Field>, i: nat, pairs: seq<Pair>)
    requires Proper(fields) && i < |fields|
    requires multiset(pairs) == multiset(AllPairs(Indexed, fields, |fields|))
    ensures AddressesField(Indexed, pairs, fields[i])
  {
    hide Addressed, AllPairs;
    EncodedField(Indexed, fields, i);
    forall s
      ensures Addressed(pairs, fields[i].key, s) == FieldAt(Indexed, fields[i], s)
    {
      AddressedPermuted(AllPairs(Indexed, fields, |fields|), pairs, fields[i].key, s);
      AtMostOneSame(FieldAt(Indexed, fields[i], s), Addressed(pairs, fields[i].key, s));
    }
  }

  lemma ListedAt(query: Query, pairs: seq<Pair>, field: Field, style: Style, s: Subscript)
    requires AddressesField(style, pairs, field) && IsEntryFor(EntryOf(query, field.key), pairs, field.key)
    ensures !s.Object? ==> Listed(EntryOf(query, field.key), s) == FieldAt(style, field, s)
    ensures EntryOf(query, field.key).isObject <==> FieldAt(style, field, Object) != []
  {
    hide Addressed, FieldAt, Listed;
  }

  lemma NothingIndexed(query: Query, pairs: seq<Pair>, field: Field, style: Style)
    requires AddressesField(style, pairs, field) && IsEntryFor(EntryOf(query, field.key), pairs, field.key)
    requires forall i: nat :: FieldAt(style, field, Index(i)) == []
    ensures EntryOf(query, field.key).indexed == map[]
  {
    hide Addressed, FieldAt;
    var indexed := EntryOf(query, field.key).indexed;
    forall i: nat
      ensures i !in indexed
    {
      ListedAt(query, pairs, field, style, Index(i));
      assert ValuesAt(indexed, i) == [];
    }
  }

  lemma NothingGiven(entry: Entry)
    requires entry.bare == [] && entry.appended == [] && entry.indexed == map[] && !entry.isObject
    ensures ArrayOf(entry) == Ok(None)
  {
  }

  lemma IndexedFieldReads(pairs: seq<Pair>, field: Field)
    requires field.List? && AddressesField(Indexed, pairs, field)
    ensures ReadsField(Parsed(pairs), field)
  {
    hide Addressed, Parsed, IsEntryFor, ArrayOf;
    var query := Parsed(pairs);
    ParsedEntries(pairs, field.key);
    if field.values == [] {
      NothingIndexed(query, pairs, field, Indexed);
      ListedAt(query, pairs, field, Indexed, Bare);
      ListedAt(query, pairs, field, Indexed, Appended);
      NothingGiven(EntryOf(query, field.key));
    } else {
      assert Addressed(pairs, field.key, Index(0)) != [];
      IndexedArrayAccepted(pairs, field.key, field.values);
    }
  }

  lemma AddressedFieldReads(style: Style, pairs: seq<Pair>, field: Field)
    requires AddressesField(style, pairs, field)
    ensures ReadsField(Parsed(pairs), field)
  {
    hide Addressed, Parsed, AddressesField, IsEntryFor;
    var query := Parsed(pairs);
    var entry := EntryOf(query, field.key);
    ParsedEntries(pairs, field.key);
    ListedAt(query, pairs, field, style, Bare);
    ListedAt(query, pairs, field, style, Appended);
    if field.List? && style.Indexed? {
      IndexedFieldReads(pairs, field);
    } else {
      NothingIndexed(query, pairs, field, style);
      if field.List? {
        assert field.values[..|field.values|] == field.values;
      }
    }
  }

  // ---------------------------------------------------------------------------------------------
  // The search parameters

  /** Everything a client may put on the wire, as strings; nothing need be valid. */
  datatype Wire = Wire(
    q: Option<string>, types: seq<string>, poemsPage: Option<string>, poetsPage: Option<string>,
    exact: Option<string>, eras: seq<string>, meters: seq<string>, rhymes: seq<string>, themes: seq<string>,
    collections: seq<string>, poets: seq<string>)

  /** The web client's field order. */
  function WebFields(w: Wire): (fields: seq<Field>)
    ensures |fields| == 11
  {
    [Scalar("q", w.q), List("types", w.types), Scalar("poemsPage", w.poemsPage), Scalar("poetsPage", w.poetsPage),
     List("eraSlugs", w.eras), List("meterSlugs", w.meters), List("rhymeSlugs", w.rhymes),
     List("themeSlugs", w.themes), List("collectionSlugs", w.collections), List("poetSlugs", w.poets),
     Scalar("exact", w.exact)]
  }

  /** The smoke tests' field order. */
  function SmokeFields(w: Wire): (fields: seq<Field>)
    ensures |fields| == 11
  {
    [Scalar("q", w.q), List("types", w.types), Scalar("exact", w.exact), Scalar("poemsPage", w.poemsPage),
     Scalar("poetsPage", w.poetsPage), List("eraSlugs", w.eras), List("meterSlugs", w.meters),
     List("rhymeSlugs", w.rhymes), List("themeSlugs", w.themes), List("collectionSlugs", w.collections),
     List("poetSlugs", w.poets)]
  }

  function WebPairs(w: Wire): seq<Pair> {
    AllPairs(Repeated, WebFields(w), 11)
  }

  function SmokePairs(w: Wire): seq<Pair> {
    AllPairs(Indexed, SmokeFields(w), 11)
  }

  datatype Search = Search(
    q: string, types: seq<string>, poemsPage: nat, poetsPage: nat, exact: bool, poetSlugs: seq<string>,
    eraSlugs: seq<string>, meterSlugs: seq<string>, rhymeSlugs: seq<string>, themeSlugs: seq<string>,
    collectionSlugs: seq<string>)

  predicate IsLower(c: char) { 'a' <= c <= 'z' }

  predicate Transliterated(raw: string) {
    raw != [] && IsLower(raw[0]) && forall i :: 1 <= i < |raw| ==> IsLower(raw[i]) || raw[i] == '-'
  }

  predicate FourLetters(raw: string) {
    |raw| == 4 && forall i :: 0 <= i < 4 ==> 'a' <= raw[i] <= 'z' || 'A' <= raw[i] <= 'Z'
  }

  const LOWERCASE := "abcdefghijklmnopqrstuvwxyz"
  const UPPERCASE := "ABCDEFGHIJKLMNOPQRSTUVWXYZ"

  lemma LetterAt(i: nat)
    requires i < 26
    ensures |LOWERCASE| == 26 && LOWERCASE[i] as int == 'a' as int + i
    ensures |UPPERCASE| == 26 && UPPERCASE[i] as int == 'A' as int + i
  {
  }

  lemma Letters(c: char)
    ensures 'a' <= c <= 'z' <==> c in LOWERCASE
    ensures 'A' <= c <= 'Z' <==> c in UPPERCASE
  {
    if 'a' <= c <= 'z' {
      LetterAt(c as int - 'a' as int);
    }
    if 'A' <= c <= 'Z' {
      LetterAt(c as int - 'A' as int);
    }
    LetterAt(0);
    if c in LOWERCASE {
      var i :| 0 <= i < |LOWERCASE| && LOWERCASE[i] == c;
      LetterAt(i);
    }
    if c in UPPERCASE {
      var i :| 0 <= i < |UPPERCASE| && UPPERCASE[i] == c;
      LetterAt(i);
    }
  }

  /** A transliterated slug begins with a lower-case letter and goes on with lower-case letters and hyphens. */
  lemma TransliteratedMeans(raw: string, c: char)
    ensures !Transliterated([])
    ensures Transliterated([c]) <==> c in LOWERCASE
    ensures raw != [] ==> (Transliterated(raw + [c]) <==> Transliterated(raw) && (c in LOWERCASE || c == '-'))
  {
    Letters(c);
    hide LOWERCASE, UPPERCASE;
    if raw != [] {
      var all := raw + [c];
      assert all[|raw|] == c && forall i :: 0 <= i < |raw| ==> all[i] == raw[i];
    }
  }

  /** A poet's slug is four letters. */
  lemma FourLettersMean(raw: string)
    ensures FourLetters(raw) <==> |raw| == 4 && forall c :: c in raw ==> c in LOWERCASE || c in UPPERCASE
  {
    forall c
      ensures 'a' <= c <= 'z' || 'A' <= c <= 'Z' <==> c in LOWERCASE || c in UPPERCASE
    {
      Letters(c);
    }
    hide LOWERCASE, UPPERCASE;
    assert forall i :: 0 <= i < |raw| ==> raw[i] in raw;
  }

  datatype Grammar = Translit | FourLetter

  predicate IsSlug(grammar: Grammar, raw: string) {
    match grammar
    case Translit => Transliterated(raw)
    case FourLetter => FourLetters(raw)
  }

  function Facet(query: Query, name: string, grammar: Grammar): Result<seq<string>, Error> {
    match ArrayOf(EntryOf(query, name))
    case Err(e) => Err(e)
    case Ok(None) => Ok([])
    case Ok(Some(values)) =>
      if |values| > MAX_FILTER_SLUGS || exists i :: 0 <= i < |values| && !IsSlug(grammar, values[i])
      then Err(BadRequest) else Ok(values)
  }

  predicate IsType(raw: string) { raw == "poems" || raw == "poets" }

  function Types(query: Query): Result<seq<string>, Error> {
    match ArrayOf(EntryOf(query, "types"))
    case Err(e) => Err(e)
    case Ok(None) => Ok(["poems", "poets"])
    case Ok(Some(types)) =>
      if |types| > 2 || exists i :: 0 <= i < |types| && !IsType(types[i]) then Err(BadRequest) else Ok(types)
  }

  function Text(query: Query, name: string, most: nat): Result<Option<string>, Error> {
    match ScalarOf(EntryOf(query, name))
    case Ok(Some(raw)) => if Utf16Length(raw) > most then Err(BadRequest) else Ok(Some(raw))
    case other => other
  }

  function Boolean(query: Query, name: string): Result<bool, Error> {
    match ScalarOf(EntryOf(query, name))
    case Err(e) => Err(e)
    case Ok(None) => Ok(false)
    case Ok(Some(raw)) => if raw == "true" then Ok(true) else if raw == "false" then Ok(false) else Err(BadRequest)
  }

  /** A page as the route reads it: a leading digit from 1 to 9, then digits, at most `most`. */
  function PageNumber(raw: string, most: nat): Result<nat, Error> {
    if raw == [] || !('1' <= raw[0] <= '9') || !AllDigits(raw[1..]) then Err(BadRequest)
    else
      match Parse(raw, U32_MAX)
      case None => Err(BadRequest)
      case Some(page) => if page > most then Err(BadRequest) else Ok(page)
  }

  function NamedPage(query: Query, name: string, most: nat): Result<nat, Error> {
    match ScalarOf(EntryOf(query, name))
    case Err(e) => Err(e)
    case Ok(None) => Ok(1)
    case Ok(Some(raw)) => PageNumber(raw, most)
  }

  lemma AcceptedIsCanonical(raw: string, n: nat)
    requires raw != [] && '1' <= raw[0] <= '9' && AllDigits(raw[1..]) && Parse(raw, U32_MAX) == Some(n)
    ensures n >= 1 && raw == Dec(n)
  {
    hide Dec;
    assert AllDigits(raw) by {
      assert forall i :: 1 <= i < |raw| ==> raw[i] == raw[1..][i - 1];
    }
    DecOfValue(raw);
    ValueIsPositive(raw);
  }

  lemma CanonicalStarts(n: nat)
    requires n >= 1
    ensures Dec(n) != [] && '1' <= Dec(n)[0] <= '9' && AllDigits(Dec(n)[1..])
  {
    var s := Dec(n);
    assert IsDigit(s[0]) && s[0] != '0';
    assert forall i :: 0 <= i < |s| - 1 ==> s[1..][i] == s[i + 1];
  }

  /** The pages accepted are precisely the canonical numerals of 1 to `most`. */
  lemma PageNumberIsCanonical(raw: string, most: nat, n: nat)
    requires most <= U32_MAX
    ensures PageNumber(raw, most) == Ok(n) <==> 1 <= n <= most && raw == Dec(n)
  {
    hide Dec, Value, Parse;
    if PageNumber(raw, most) == Ok(n) {
      AcceptedIsCanonical(raw, n);
    }
    if 1 <= n <= most && raw == Dec(n) {
      ParseUndoesDec(n, U32_MAX);
      CanonicalStarts(n);
    }
  }

  /** The route: decode and validate everything, then refuse poem-only filters when poets are wanted. */
  function Decode(query: Query): Result<Search, Error> {
    var q :- Text(query, "q", MAX_QUERY_LENGTH);
    var types :- Types(query);
    var poemsPage :- NamedPage(query, "poemsPage", Paging.SEARCH_MAX_PAGE);
    var poetsPage :- NamedPage(query, "poetsPage", Paging.SEARCH_MAX_PAGE);
    var exact :- Boolean(query, "exact");
    var poetSlugs :- Facet(query, "poetSlugs", FourLetter);
    var eraSlugs :- Facet(query, "eraSlugs", Translit);
    var meterSlugs :- Facet(query, "meterSlugs", Translit);
    var rhymeSlugs :- Facet(query, "rhymeSlugs", Translit);
    var themeSlugs :- Facet(query, "themeSlugs", Translit);
    var collectionSlugs :- Facet(query, "collectionSlugs", Translit);
    if "poets" in types && (meterSlugs != [] || rhymeSlugs != [] || themeSlugs != [] || collectionSlugs != [])
    then Err(BadRequest)
    else
      Ok(Search(if q.Some? then q.value else [], types, poemsPage, poetsPage, exact, poetSlugs, eraSlugs,
                meterSlugs, rhymeSlugs, themeSlugs, collectionSlugs))
  }

  // ---------------------------------------------------------------------------------------------
  // Two encoders, one decoder

  predicate GoodList(grammar: Grammar, values: seq<string>) {
    |values| <= MAX_FILTER_SLUGS && forall i :: 0 <= i < |values| ==> IsSlug(grammar, values[i])
  }

  /** At most a hundred slugs of poets, or of anything else. */
  predicate GoodPoets(poets: seq<string>) {
    |poets| <= 100 && forall i :: 0 <= i < |poets| ==> FourLetters(poets[i])
  }

  predicate GoodSlugs(slugs: seq<string>) {
    |slugs| <= 100 && forall i :: 0 <= i < |slugs| ==> Transliterated(slugs[i])
  }

  lemma GoodListMeans(values: seq<string>)
    ensures GoodList(FourLetter, values) <==> GoodPoets(values)
    ensures GoodList(Translit, values) <==> GoodSlugs(values)
  {
    hide FourLetters, Transliterated;
  }

  ghost predicate GoodPage(page: Option<string>) {
    page.None? || exists n: nat :: 1 <= n <= 500 && page.value == Dec(n)
  }

  /** The result types a request asks for; naming none asks for both. */
  function WantedTypes(w: Wire): seq<string> {
    if w.types == [] then ["poems", "poets"] else w.types
  }

  /** What the documented contract allows. */
  ghost predicate Valid(w: Wire) {
    && (w.q.None? || Utf16Length(w.q.value) <= 50)
    && |w.types| <= 2 && (forall i :: 0 <= i < |w.types| ==> w.types[i] == "poems" || w.types[i] == "poets")
    && GoodPage(w.poemsPage) && GoodPage(w.poetsPage)
    && (w.exact.None? || w.exact.value == "true" || w.exact.value == "false")
    && GoodPoets(w.poets) && GoodSlugs(w.eras) && GoodSlugs(w.meters) && GoodSlugs(w.rhymes)
    && GoodSlugs(w.themes) && GoodSlugs(w.collections)
    && ("poets" in WantedTypes(w) ==>
          w.meters == [] && w.rhymes == [] && w.themes == [] && w.collections == [])
  }

  ghost function PageMeant(page: Option<string>): nat
    requires GoodPage(page)
  {
    if page.None? then 1 else var n: nat :| 1 <= n <= 500 && page.value == Dec(n); n
  }

  ghost function Meaning(w: Wire): Search
    requires Valid(w)
  {
    Search(if w.q.Some? then w.q.value else [], WantedTypes(w), PageMeant(w.poemsPage), PageMeant(w.poetsPage),
           w.exact == Some("true"), w.poets, w.eras, w.meters, w.rhymes, w.themes, w.collections)
  }

  /** Every parameter reads back as it was put on the wire. */
  ghost predicate ReadsWire(query: Query, w: Wire) {
    forall i :: 0 <= i < 11 ==> ReadsField(query, WebFields(w)[i])
  }

  ghost predicate Small(w: Wire) {
    && |w.types| <= USIZE_MAX && |w.eras| <= USIZE_MAX && |w.meters| <= USIZE_MAX && |w.rhymes| <= USIZE_MAX
    && |w.themes| <= USIZE_MAX && |w.collections| <= USIZE_MAX && |w.poets| <= USIZE_MAX
  }

  lemma PlainNames()
    ensures PlainKey("q") && PlainKey("types") && PlainKey("poemsPage") && PlainKey("poetsPage")
    ensures PlainKey("eraSlugs") && PlainKey("meterSlugs") && PlainKey("rhymeSlugs") && PlainKey("themeSlugs")
    ensures PlainKey("collectionSlugs") && PlainKey("poetSlugs") && PlainKey("exact")
  {
  }

  lemma FieldsAreProper(w: Wire)
    requires Small(w)
    ensures Proper(WebFields(w)) && Proper(SmokeFields(w))
  {
    hide PlainKey;
    PlainNames();
  }

  /** Lists may be given under empty brackets as well, with the same meaning. */
  lemma BracketsReadBack(w: Wire)
    requires Small(w)
    ensures ReadsWire(Parsed(AllPairs(Bracketed, WebFields(w), 11)), w)
  {
    hide Parsed, AllPairs, Proper, AddressesField, ReadsField, WebFields, SmokeFields;
    FieldsAreProper(w);
    forall i | 0 <= i < 11
      ensures ReadsField(Parsed(AllPairs(Bracketed, WebFields(w), 11)), WebFields(w)[i])
    {
      EncodedField(Bracketed, WebFields(w), i);
      AddressedFieldReads(Bracketed, AllPairs(Bracketed, WebFields(w), 11), WebFields(w)[i]);
    }
  }

  lemma SmokeOrder(w: Wire, i: nat) returns (k: nat)
    requires i < 11
    ensures k < 11 && SmokeFields(w)[k] == WebFields(w)[i]
  {
    k := [0, 1, 3, 4, 5, 6, 7, 8, 9, 10, 2][i];
  }

  /** Whatever is put on the wire reads back, from the repeated style and from the indexed style in any
      order of pairs. */
  lemma BothStylesReadBack(w: Wire, shuffled: seq<Pair>)
    requires Small(w) && multiset(shuffled) == multiset(SmokePairs(w))
    ensures ReadsWire(Parsed(WebPairs(w)), w) && ReadsWire(Parsed(shuffled), w)
  {
    hide Parsed, AllPairs, Proper, AddressesField, ReadsField, WebFields, SmokeFields;
    FieldsAreProper(w);
    forall i | 0 <= i < 11
      ensures ReadsField(Parsed(WebPairs(w)), WebFields(w)[i]) && ReadsField(Parsed(shuffled), WebFields(w)[i])
    {
      EncodedField(Repeated, WebFields(w), i);
      AddressedFieldReads(Repeated, WebPairs(w), WebFields(w)[i]);
      var k := SmokeOrder(w, i);
      ShuffledField(SmokeFields(w), k, shuffled);
      AddressedFieldReads(Indexed, shuffled, SmokeFields(w)[k]);
    }
  }

  lemma FacetReads(query: Query, name: string, grammar: Grammar, values: seq<string>)
    requires ReadsField(query, List(name, values))
    ensures Facet(query, name, grammar)
         == if (if grammar.FourLetter? then GoodPoets(values) else GoodSlugs(values)) then Ok(values)
            else Err(BadRequest)
  {
    hide ArrayOf, EntryOf, IsSlug, FourLetters, Transliterated;
    GoodListMeans(values);
  }

  lemma TypesRead(query: Query, w: Wire)
    requires ReadsField(query, List("types", w.types))
    ensures Types(query)
         == if |w.types| <= 2 && (forall i :: 0 <= i < |w.types| ==> w.types[i] == "poems" || w.types[i] == "poets")
            then Ok(WantedTypes(w)) else Err(BadRequest)
  {
    hide ArrayOf, EntryOf;
  }

  lemma PageReads(query: Query, name: string, page: Option<string>)
    requires ReadsField(query, Scalar(name, page))
    ensures NamedPage(query, name, Paging.SEARCH_MAX_PAGE)
         == if GoodPage(page) then Ok(PageMeant(page)) else Err(BadRequest)
  {
    hide ScalarOf, EntryOf, PageNumber, Dec;
    if page.Some? {
      var read := PageNumber(page.value, Paging.SEARCH_MAX_PAGE);
      match read {
        case Ok(n) =>
          PageNumberIsCanonical(page.value, Paging.SEARCH_MAX_PAGE, n);
          assert page.value == Dec(n);
        case Err(BadRequest) =>
      }
      if GoodPage(page) {
        PageNumberIsCanonical(page.value, Paging.SEARCH_MAX_PAGE, PageMeant(page));
      }
    }
  }

  lemma ScalarReads(query: Query, name: string, value: Option<string>)
    requires ReadsField(query, Scalar(name, value))
    ensures ScalarOf(EntryOf(query, name)) == Ok(value)
  {
  }

  /** Decoding what reads back: accepted exactly when it is valid, and then as it was meant. */
  lemma DecodeReads(query: Query, w: Wire)
    requires ReadsWire(query, w)
    ensures Decode(query) == if Valid(w) then Ok(Meaning(w)) else Err(BadRequest)
  {
    hide ReadsField, Facet, Types, NamedPage, Utf16Length, GoodPoets, GoodSlugs, GoodPage, PageMeant, ScalarOf;
    var fields := WebFields(w);
    assert ReadsField(query, fields[0]) && ReadsField(query, fields[1]) && ReadsField(query, fields[2]);
    assert ReadsField(query, fields[3]) && ReadsField(query, fields[4]) && ReadsField(query, fields[5]);
    assert ReadsField(query, fields[6]) && ReadsField(query, fields[7]) && ReadsField(query, fields[8]);
    assert ReadsField(query, fields[9]) && ReadsField(query, fields[10]);
    ScalarReads(query, "q", w.q);
    ScalarReads(query, "exact", w.exact);
    TypesRead(query, w);
    PageReads(query, "poemsPage", w.poemsPage);
    PageReads(query, "poetsPage", w.poetsPage);
    FacetReads(query, "poetSlugs", FourLetter, w.poets);
    FacetReads(query, "eraSlugs", Translit, w.eras);
    FacetReads(query, "meterSlugs", Translit, w.meters);
    FacetReads(query, "rhymeSlugs", Translit, w.rhymes);
    FacetReads(query, "themeSlugs", Translit, w.themes);
    FacetReads(query, "collectionSlugs", Translit, w.collections);
  }

  /** Some parameter cannot be read at all: a scalar given twice or with a subscript, or a list with mixed
      forms, an index missing or repeated, or used as an object. */
  ghost predicate Unreadable(query: Query) {
    || (exists name :: name in {"q", "poemsPage", "poetsPage", "exact"} && ScalarOf(EntryOf(query, name)).Err?)
    || (exists name ::
          name in {"types", "eraSlugs", "meterSlugs", "rhymeSlugs", "themeSlugs", "collectionSlugs", "poetSlugs"}
          && ArrayOf(EntryOf(query, name)).Err?)
  }

  lemma OnlyOneError(error: Error)
    ensures error == BadRequest
  {
  }

  lemma ScalarMustBeRead(query: Query, name: string)
    requires name == "q" || name == "poemsPage" || name == "poetsPage" || name == "exact"
    requires ScalarOf(EntryOf(query, name)).Err?
    ensures Decode(query).Err?
  {
    hide ScalarOf, ArrayOf, EntryOf, Utf16Length, IsSlug, IsType, PageNumber;
  }

  lemma ListMustBeRead(query: Query, name: string)
    requires name == "types" || name == "eraSlugs" || name == "meterSlugs" || name == "rhymeSlugs"
             || name == "themeSlugs" || name == "collectionSlugs" || name == "poetSlugs"
    requires ArrayOf(EntryOf(query, name)).Err?
    ensures Decode(query).Err?
  {
    hide ScalarOf, ArrayOf, EntryOf, Utf16Length, IsSlug, IsType, PageNumber;
  }

  /** Nothing that cannot be read is passed over. */
  lemma UnreadableIsRefused(query: Query)
    requires Unreadable(query)
    ensures Decode(query) == Err(BadRequest)
  {
    hide ScalarOf, ArrayOf, EntryOf, Utf16Length, IsSlug, IsType, PageNumber, Decode;
    if name :| name in {"q", "poemsPage", "poetsPage", "exact"} && ScalarOf(EntryOf(query, name)).Err? {
      ScalarMustBeRead(query, name);
    } else {
      var name :|
        name in {"types", "eraSlugs", "meterSlugs", "rhymeSlugs", "themeSlugs", "collectionSlugs", "poetSlugs"}
        && ArrayOf(EntryOf(query, name)).Err?;
      ListMustBeRead(query, name);
    }
    OnlyOneError(Decode(query).error);
  }

  function ReadScalar(query: Query, name: string): Option<string> {
    match ScalarOf(EntryOf(query, name)) case Ok(value) => value case Err(_) => None
  }

  function ReadList(query: Query, name: string): seq<string> {
    match ArrayOf(EntryOf(query, name)) case Ok(Some(values)) => values case _ => []
  }

  /** What a query says, as the parameters of a search. */
  function WireOf(query: Query): Wire {
    Wire(ReadScalar(query, "q"), ReadList(query, "types"), ReadScalar(query, "poemsPage"),
         ReadScalar(query, "poetsPage"), ReadScalar(query, "exact"), ReadList(query, "eraSlugs"),
         ReadList(query, "meterSlugs"), ReadList(query, "rhymeSlugs"), ReadList(query, "themeSlugs"),
         ReadList(query, "collectionSlugs"), ReadList(query, "poetSlugs"))
  }

  lemma ListIsNotEmpty(entry: Entry, values: seq<string>)
    requires ArrayOf(entry) == Ok(Some(values))
    ensures values != []
  {
    if entry.indexed != map[] {
      assert |entry.indexed| > 0;
      InOrderAt(entry.indexed, |entry.indexed|, 0);
    }
  }

  lemma FieldReads(query: Query, w: Wire, i: nat)
    requires w == WireOf(query) && !Unreadable(query) && i < 11
    ensures ReadsField(query, WebFields(w)[i])
  {
    hide ScalarOf, ArrayOf, EntryOf;
    var field := WebFields(w)[i];
    match field {
      case Scalar(key, _) =>
        assert key in {"q", "poemsPage", "poetsPage", "exact"};
        assert ScalarOf(EntryOf(query, key)).Ok?;
      case List(key, values) =>
        assert key in {"types", "eraSlugs", "meterSlugs", "rhymeSlugs", "themeSlugs", "collectionSlugs", "poetSlugs"};
        var read := ArrayOf(EntryOf(query, key));
        assert read.Ok?;
        if read.value.Some? {
          ListIsNotEmpty(EntryOf(query, key), read.value.value);
        }
    }
  }

  /** Any query whatever, in any mix of forms: it is refused if a parameter cannot be read; otherwise it is
      accepted exactly when what it says is valid, and then decodes to that. */
  lemma EveryQueryDecodes(query: Query)
    ensures Decode(query)
         == if !Unreadable(query) && Valid(WireOf(query)) then Ok(Meaning(WireOf(query))) else Err(BadRequest)
  {
    hide Decode, Valid, Meaning, ScalarOf, ArrayOf, EntryOf;
    if Unreadable(query) {
      UnreadableIsRefused(query);
    } else {
      var w := WireOf(query);
      forall i | 0 <= i < 11
        ensures ReadsField(query, WebFields(w)[i])
      {
        FieldReads(query, w, i);
      }
      DecodeReads(query, w);
    }
  }

  /** Two encoders, one decoder: whatever a client puts on the wire, the web client's encoding and the
      smoke tests' encoding in any order of its pairs are accepted exactly when the parameters are
      valid, and decode to the same search. */
  lemma TwoEncodersOneDecoder(w: Wire, shuffled: seq<Pair>)
    requires Small(w) && multiset(shuffled) == multiset(SmokePairs(w))
    ensures Decode(Parsed(WebPairs(w))) == if Valid(w) then Ok(Meaning(w)) else Err(BadRequest)
    ensures Decode(Parsed(shuffled)) == Decode(Parsed(WebPairs(w)))
  {
    hide Decode, Valid, Meaning, ReadsWire, Parsed, WebPairs, SmokePairs;
    BothStylesReadBack(w, shuffled);
    DecodeReads(Parsed(WebPairs(w)), w);
    DecodeReads(Parsed(shuffled), w);
  }

  lemma BracketsDecodeAlike(w: Wire)
    requires Small(w)
    ensures Decode(Parsed(AllPairs(Bracketed, WebFields(w), 11)))
         == if Valid(w) then Ok(Meaning(w)) else Err(BadRequest)
  {
    hide Decode, Valid, Meaning, ReadsWire, Parsed, AllPairs;
    BracketsReadBack(w);
    DecodeReads(Parsed(AllPairs(Bracketed, WebFields(w), 11)), w);
  }

  // ---------------------------------------------------------------------------------------------
  // The web client's own inputs

  datatype SearchType = Poems | Poets

  datatype SearchInput = SearchInput(
    q: string, kind: SearchType, page: nat, eras: seq<string>, meters: seq<string>, rhymes: seq<string>,
    themes: seq<string>, collections: seq<string>, exact: bool)

  /** The client sends the page of the wanted type, and poem filters only when poems are wanted. */
  function SearchQueryParams(input: SearchInput): Wire {
    var poems := input.kind.Poems?;
    Wire(Some(input.q), [if poems then "poems" else "poets"],
         Some(if poems then Dec(input.page) else "1"), Some(if poems then "1" else Dec(input.page)),
         Some(if input.exact then "true" else "false"), input.eras,
         if poems then input.meters else [], if poems then input.rhymes else [],
         if poems then input.themes else [], if poems then input.collections else [], [])
  }

  ghost predicate ValidInput(input: SearchInput) {
    && Utf16Length(input.q) <= 50 && 1 <= input.page <= 500
    && GoodSlugs(input.eras) && GoodSlugs(input.meters) && GoodSlugs(input.rhymes)
    && GoodSlugs(input.themes) && GoodSlugs(input.collections)
  }

  lemma PageOf(n: nat)
    requires 1 <= n <= Paging.SEARCH_MAX_PAGE
    ensures GoodPage(Some(Dec(n))) && PageMeant(Some(Dec(n))) == n
  {
    var page := Some(Dec(n));
    assert page.value == Dec(n);
    DecIsInjective(PageMeant(page), n);
  }

  lemma OneSpelled()
    ensures Dec(1) == "1"
  {
  }

  lemma NoSlugs()
    ensures GoodList(FourLetter, []) && GoodList(Translit, [])
  {
  }

  /** Every input the client may form is accepted, and means what was entered. */
  lemma ClientInputAccepted(input: SearchInput)
    requires ValidInput(input)
    ensures
      var decoded := Decode(Parsed(WebPairs(SearchQueryParams(input))));
      && decoded.Ok?
      && decoded.value.q == input.q && decoded.value.exact == input.exact
      && decoded.value.eraSlugs == input.eras && decoded.value.poetSlugs == []
      && (input.kind.Poems? ==>
            decoded.value.types == ["poems"] && decoded.value.poemsPage == input.page
            && decoded.value.meterSlugs == input.meters && decoded.value.rhymeSlugs == input.rhymes
            && decoded.value.themeSlugs == input.themes && decoded.value.collectionSlugs == input.collections)
      && (input.kind.Poets? ==> decoded.value.types == ["poets"] && decoded.value.poetsPage == input.page)
  {
    hide Decode, Parsed, WebPairs, SmokePairs, GoodPage, Dec, Utf16Length, PageMeant, IsSlug;
    var w := SearchQueryParams(input);
    OneSpelled();
    PageOf(input.page);
    PageOf(1);
    NoSlugs();
    assert IsType(w.types[0]);
    TwoEncodersOneDecoder(w, SmokePairs(w));
  }
}
