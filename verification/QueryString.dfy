/** The search endpoint's query string: two encoders, written apart, and the one decoder both must
    satisfy. Strings of pairs are modelled after percent-decoding. */
module QueryString {
  import opened Wrappers
  import opened Integers
  import opened Collections
  import opened Decimal

  const MAX_FILTER_SLUGS: nat := 100
  const MAX_QUERY_LENGTH: nat := 50

  type Pair = (string, string)

  // ---------------------------------------------------------------------------------------------
  // Keys with subscripts

  datatype Subscript = Bare | Appended | Index(index: nat) | Object

  /** The position of the first opening bracket, if any. */
  function Open(key: string, i: nat): (open: nat)
    requires i <= |key|
    ensures i <= open <= |key|
    ensures forall j :: i <= j < open ==> key[j] != '['
    ensures open < |key| ==> key[open] == '['
    decreases |key| - i
  {
    if i == |key| || key[i] == '[' then i else Open(key, i + 1)
  }

  /** The name a key addresses and how: `name`, `name[]`, `name[7]`, or `name[anything else]`. */
  function SplitSubscript(key: string): (string, Subscript) {
    var open := Open(key, 0);
    if open == |key| || key[|key| - 1] != ']' then (key, Bare)
    else
      var inner := key[open + 1..|key| - 1];
      if inner == [] then (key[..open], Appended)
      else
        match Parse(inner, USIZE_MAX)
        case Some(index) => (key[..open], Index(index))
        case None => (key[..open], Object)
  }

  predicate PlainKey(key: string) {
    forall i :: 0 <= i < |key| ==> key[i] != '['
  }

  lemma PlainKeyIsBare(key: string)
    requires PlainKey(key)
    ensures SplitSubscript(key) == (key, Bare)
  {
  }

  /** `name[inner]`: what stands between the brackets says how the name is addressed. */
  lemma SubscriptSplits(name: string, inner: string)
    requires PlainKey(name)
    ensures SplitSubscript(name + "[" + inner + "]")
         == (name, if inner == [] then Appended
                   else match Parse(inner, USIZE_MAX) case Some(index) => Index(index) case None => Object)
  {
    var full := name + "[" + inner + "]";
    assert full[|name|] == '[';
    assert forall j :: 0 <= j < |name| ==> full[j] == name[j];
    assert Open(full, 0) == |name|;
    assert full[|name| + 1..|full| - 1] == inner;
    assert full[..|name|] == name;
  }

  /** Any other key is a bare name: one without an opening bracket, or without a closing one at its end. */
  lemma NoSubscript(key: string)
    requires PlainKey(key) || key[|key| - 1] != ']'
    ensures SplitSubscript(key) == (key, Bare)
  {
  }

  /** There is no third kind of key. */
  lemma EveryKeySplits(key: string) returns (name: string, inner: string)
    requires !PlainKey(key) && key[|key| - 1] == ']'
    ensures PlainKey(name) && key == name + "[" + inner + "]"
  {
    var open := Open(key, 0);
    name, inner := key[..open], key[open + 1..|key| - 1];
    assert key == key[..open] + [key[open]] + key[open + 1..|key| - 1] + [key[|key| - 1]];
  }

  /** `${key}[${index}]`. */
  function IndexedKey(key: string, index: nat): string {
    key + "[" + Dec(index) + "]"
  }

  /** `${key}[]`. */
  function AppendedKey(key: string): string {
    key + "[" + "" + "]"
  }

  lemma IndexedKeySplits(key: string, index: nat)
    requires PlainKey(key) && index <= USIZE_MAX
    ensures SplitSubscript(IndexedKey(key, index)) == (key, Index(index))
  {
    hide SplitSubscript, Parse;
    SubscriptSplits(key, Dec(index));
    ParseUndoesDec(index, USIZE_MAX);
  }

  // ---------------------------------------------------------------------------------------------
  // Parsing

  datatype Entry = Entry(bare: seq<string>, appended: seq<string>, indexed: map<nat, seq<string>>, isObject: bool)

  type Query = map<string, Entry>

  const NO_ENTRY := Entry([], [], map[], false)

  function EntryOf(query: Query, name: string): Entry {
    if name in query then query[name] else NO_ENTRY
  }

  function ValuesAt(indexed: map<nat, seq<string>>, index: nat): seq<string> {
    if index in indexed then indexed[index] else []
  }

  function Entered(entry: Entry, subscript: Subscript, value: string): Entry {
    match subscript
    case Bare => entry.(bare := entry.bare + [value])
    case Appended => entry.(appended := entry.appended + [value])
    case Index(i) => entry.(indexed := entry.indexed[i := ValuesAt(entry.indexed, i) + [value]])
    case Object => entry.(isObject := true)
  }

  function Parsed(pairs: seq<Pair>): Query {
    if pairs == [] then map[]
    else
      var query, last := Parsed(pairs[..|pairs| - 1]), pairs[|pairs| - 1];
      var (name, subscript) := SplitSubscript(last.0);
      query[name := Entered(EntryOf(query, name), subscript, last.1)]
  }

  method ParseQuery(pairs: seq<Pair>) returns (query: Query)
    ensures query == Parsed(pairs)
  {
    hide SplitSubscript;
    query := map[];
    for i := 0 to |pairs|
      invariant query == Parsed(pairs[..i])
    {
      var (name, subscript) := SplitSubscript(pairs[i].0);
      if name !in query {
        query := query[name := NO_ENTRY];
      }
      var entry := query[name];
      match subscript {
        case Bare => entry := entry.(bare := entry.bare + [pairs[i].1]);
        case Appended => entry := entry.(appended := entry.appended + [pairs[i].1]);
        case Index(index) =>
          entry := entry.(indexed := entry.indexed[index := ValuesAt(entry.indexed, index) + [pairs[i].1]]);
        case Object => entry := entry.(isObject := true);
      }
      query := query[name := entry];
      assert pairs[..i + 1][..i] == pairs[..i];
    }
    assert pairs[..|pairs|] == pairs;
  }

  /** The values of the pairs that address a name in one way, in the order of the pairs. */
  function Addressed(pairs: seq<Pair>, name: string, subscript: Subscript): seq<string> {
    if pairs == [] then []
    else
      var last := pairs[|pairs| - 1];
      Addressed(pairs[..|pairs| - 1], name, subscript)
      + if SplitSubscript(last.0) == (name, subscript) then [last.1] else []
  }

  function Listed(entry: Entry, subscript: Subscript): seq<string> {
    match subscript
    case Bare => entry.bare
    case Appended => entry.appended
    case Index(i) => ValuesAt(entry.indexed, i)
    case Object => []
  }

  /** What an entry of a parsed query is, in terms of the pairs. */
  ghost predicate IsEntryFor(entry: Entry, pairs: seq<Pair>, name: string) {
    && (forall s: Subscript :: !s.Object? ==> Listed(entry, s) == Addressed(pairs, name, s))
    && (forall i: nat :: i in entry.indexed ==> entry.indexed[i] != [])
    && (entry.isObject <==> Addressed(pairs, name, Object) != [])
  }

  lemma Entering(entry: Entry, subscript: Subscript, value: string, s: Subscript)
    requires !s.Object?
    ensures Listed(Entered(entry, subscript, value), s)
         == Listed(entry, s) + if subscript == s then [value] else []
  {
  }

  lemma NothingListed(s: Subscript)
    ensures Listed(NO_ENTRY, s) == []
  {
  }

  lemma {:induction false} ParsedAt(pairs: seq<Pair>, name: string, s: Subscript)
    requires !s.Object?
    ensures Listed(EntryOf(Parsed(pairs), name), s) == Addressed(pairs, name, s)
  {
    hide SplitSubscript, Listed, Entered;
    if pairs == [] {
      assert EntryOf(Parsed(pairs), name) == NO_ENTRY;
      NothingListed(s);
    } else {
      var before, last := pairs[..|pairs| - 1], pairs[|pairs| - 1];
      ParsedAt(before, name, s);
      var split := SplitSubscript(last.0);
      Entering(EntryOf(Parsed(before), split.0), split.1, last.1, s);
      assert split == (split.0, split.1);
    }
  }

  lemma {:induction false} ParsedObject(pairs: seq<Pair>, name: string)
    ensures EntryOf(Parsed(pairs), name).isObject <==> Addressed(pairs, name, Object) != []
    ensures forall i: nat :: i in EntryOf(Parsed(pairs), name).indexed ==>
              EntryOf(Parsed(pairs), name).indexed[i] != []
  {
    hide SplitSubscript;
    if pairs == [] {
    } else {
      ParsedObject(pairs[..|pairs| - 1], name);
    }
  }

  lemma ParsedEntries(pairs: seq<Pair>, name: string)
    ensures IsEntryFor(EntryOf(Parsed(pairs), name), pairs, name)
  {
    hide Parsed, Addressed, Listed, EntryOf;
    ParsedObject(pairs, name);
    forall s: Subscript | !s.Object?
      ensures Listed(EntryOf(Parsed(pairs), name), s) == Addressed(pairs, name, s)
    {
      ParsedAt(pairs, name, s);
    }
  }

  // ---------------------------------------------------------------------------------------------
  // Reading arrays and scalars

  datatype Error = BadRequest

  /** The indices are exactly 0 to n - 1, once each. */
  predicate Dense(indexed: map<nat, seq<string>>, n: nat) {
    forall i :: 0 <= i < n ==> i in indexed && |indexed[i]| == 1
  }

  function InOrder(indexed: map<nat, seq<string>>, n: nat): seq<string>
    requires Dense(indexed, n)
  {
    if n == 0 then [] else InOrder(indexed, n - 1) + [indexed[n - 1][0]]
  }

  function ArrayOf(entry: Entry): Result<Option<seq<string>>, Error> {
    if entry.isObject then Err(BadRequest)
    else if entry.indexed != map[] then
      if entry.appended != [] || entry.bare != [] || !Dense(entry.indexed, |entry.indexed|) then Err(BadRequest)
      else Ok(Some(InOrder(entry.indexed, |entry.indexed|)))
    else if entry.appended != [] then Ok(Some(entry.appended))
    else if entry.bare == [] then Ok(None)
    else Ok(Some(entry.bare))
  }

  /** Reads an array; the indices are visited in ascending order, so the one at each place must be the
      place itself. */
  method Array(query: Query, name: string) returns (read: Result<Option<seq<string>>, Error>)
    ensures read == ArrayOf(EntryOf(query, name))
  {
    if name !in query {
      return Ok(None);
    }
    var entry := query[name];
    if entry.isObject {
      return Err(BadRequest);
    }
    if entry.indexed != map[] {
      if entry.appended != [] || entry.bare != [] {
        return Err(BadRequest);
      }
      var values: seq<string> := [];
      var expected: nat := 0;
      while expected < |entry.indexed|
        invariant expected <= |entry.indexed|
        invariant Dense(entry.indexed, expected) && values == InOrder(entry.indexed, expected)
      {
        if expected !in entry.indexed || |entry.indexed[expected]| != 1 {
          return Err(BadRequest);
        }
        values := values + [entry.indexed[expected][0]];
        expected := expected + 1;
      }
      return Ok(Some(values));
    }
    if entry.appended != [] {
      return Ok(Some(entry.appended));
    }
    if entry.bare == [] {
      return Ok(None);
    }
    return Ok(Some(entry.bare));
  }

  function ScalarOf(entry: Entry): Result<Option<string>, Error> {
    if entry.isObject || entry.appended != [] || entry.indexed != map[] || |entry.bare| > 1 then Err(BadRequest)
    else if entry.bare == [] then Ok(None)
    else Ok(Some(entry.bare[0]))
  }

  lemma {:induction false} InOrderAt(indexed: map<nat, seq<string>>, n: nat, i: nat)
    requires Dense(indexed, n) && i < n
    ensures |InOrder(indexed, n)| == n && InOrder(indexed, n)[i] == indexed[i][0]
  {
    if n == 1 {
    } else {
      InOrderAt(indexed, n - 1, if i < n - 1 then i else 0);
    }
  }

  function Range(n: nat): (range: set<nat>)
    ensures forall i: nat :: i in range <==> i < n
    ensures |range| == n
  {
    if n == 0 then {} else Range(n - 1) + {n - 1}
  }

  /** The list that an indexed map spells, if it spells one. */
  ghost predicate Spells(indexed: map<nat, seq<string>>, values: seq<string>) {
    forall i: nat :: ValuesAt(indexed, i) == if i < |values| then [values[i]] else []
  }

  lemma DenseSpells(indexed: map<nat, seq<string>>, values: seq<string>)
    requires Dense(indexed, |indexed|) && InOrder(indexed, |indexed|) == values
    ensures Spells(indexed, values)
  {
    var n := |indexed|;
    SubsetSize(Range(n), indexed.Keys);
    forall i: nat
      ensures ValuesAt(indexed, i) == if i < |values| then [values[i]] else []
    {
      assert i in indexed.Keys <==> i < n;
      if n > 0 {
        InOrderAt(indexed, n, if i < n then i else 0);
      }
    }
  }

  lemma SpellsAt(indexed: map<nat, seq<string>>, values: seq<string>, i: nat)
    requires Spells(indexed, values)
    ensures ValuesAt(indexed, i) == if i < |values| then [values[i]] else []
  {
  }

  lemma InOrderOfNothing(indexed: map<nat, seq<string>>)
    ensures Dense(indexed, 0) && InOrder(indexed, 0) == []
  {
  }

  lemma SpellsDense(indexed: map<nat, seq<string>>, values: seq<string>)
    requires Spells(indexed, values) && forall i: nat :: i in indexed ==> indexed[i] != []
    ensures Dense(indexed, |indexed|) && InOrder(indexed, |indexed|) == values
  {
    hide Spells, InOrder;
    forall i: nat
      ensures i in indexed <==> i < |values|
      ensures i < |values| ==> i in indexed && indexed[i] == [values[i]]
    {
      SpellsAt(indexed, values, i);
    }
    assert indexed.Keys == Range(|values|);
    var n := |indexed|;
    assert n == |values|;
    if n == 0 {
      InOrderOfNothing(indexed);
    }
    forall i | 0 <= i < n
      ensures |InOrder(indexed, n)| == n && InOrder(indexed, n)[i] == values[i]
    {
      InOrderAt(indexed, n, i);
    }
  }

  lemma IndexedIsValues(indexed: map<nat, seq<string>>, values: seq<string>)
    requires forall i: nat :: i in indexed ==> indexed[i] != []
    ensures Dense(indexed, |indexed|) && InOrder(indexed, |indexed|) == values <==> Spells(indexed, values)
  {
    if Dense(indexed, |indexed|) && InOrder(indexed, |indexed|) == values {
      DenseSpells(indexed, values);
    }
    if Spells(indexed, values) {
      SpellsDense(indexed, values);
    }
  }

  /** An indexed array is accepted exactly when every index from 0 to n - 1 is given once, no other
      index is given, and no other form of the name is present; its values are in index order. */
  lemma IndexedArrayAccepted(pairs: seq<Pair>, name: string, values: seq<string>)
    requires exists i: nat :: Addressed(pairs, name, Index(i)) != []
    ensures ArrayOf(EntryOf(Parsed(pairs), name)) == Ok(Some(values))
       <==> && Addressed(pairs, name, Bare) == [] && Addressed(pairs, name, Appended) == []
            && Addressed(pairs, name, Object) == []
            && forall i: nat :: Addressed(pairs, name, Index(i)) == if i < |values| then [values[i]] else []
  {
    hide Addressed, Parsed, InOrder, Dense;
    ParsedEntries(pairs, name);
    var entry := EntryOf(Parsed(pairs), name);
    var first: nat :| Addressed(pairs, name, Index(first)) != [];
    assert Listed(entry, Index(first)) != [];
    assert first in entry.indexed;
    IndexedIsValues(entry.indexed, values);
    assert forall i: nat :: ValuesAt(entry.indexed, i) == Addressed(pairs, name, Index(i)) by {
      assert forall i: nat :: Listed(entry, Index(i)) == Addressed(pairs, name, Index(i));
    }
    assert Listed(entry, Bare) == entry.bare && Listed(entry, Appended) == entry.appended;
  }

  /** Nothing is given under any index. */
  ghost predicate NoIndex(pairs: seq<Pair>, name: string) {
    forall i: nat :: Addressed(pairs, name, Index(i)) == []
  }

  lemma NoIndexMeansNone(pairs: seq<Pair>, name: string)
    ensures EntryOf(Parsed(pairs), name).indexed == map[] <==> NoIndex(pairs, name)
  {
    hide Addressed, Parsed;
    ParsedEntries(pairs, name);
    var entry := EntryOf(Parsed(pairs), name);
    forall i: nat
      ensures i in entry.indexed <==> Addressed(pairs, name, Index(i)) != []
    {
      assert Listed(entry, Index(i)) == Addressed(pairs, name, Index(i));
    }
    if entry.indexed == map[] {
      assert NoIndex(pairs, name);
    }
    if NoIndex(pairs, name) {
      assert forall i: nat :: i !in entry.indexed;
    }
  }

  /** What an array is read as, for every mix of forms: a name used as an object is refused; without
      indices the appended values count, else the bare ones, else there is no array; with indices it is
      refused or is the list that IndexedArrayAccepted describes. */
  lemma ArrayMeans(pairs: seq<Pair>, name: string)
    ensures
      var read := ArrayOf(EntryOf(Parsed(pairs), name));
      var appended, bare := Addressed(pairs, name, Appended), Addressed(pairs, name, Bare);
      && (Addressed(pairs, name, Object) != [] ==> read == Err(BadRequest))
      && (Addressed(pairs, name, Object) == [] && NoIndex(pairs, name) ==>
            read == Ok(if appended != [] then Some(appended) else if bare != [] then Some(bare) else None))
      && (!NoIndex(pairs, name) ==> read != Ok(None))
  {
    hide Addressed, Parsed, NoIndex, InOrder, Dense;
    ParsedEntries(pairs, name);
    NoIndexMeansNone(pairs, name);
    var entry := EntryOf(Parsed(pairs), name);
    assert Listed(entry, Bare) == entry.bare && Listed(entry, Appended) == entry.appended;
  }

  /** What a scalar is read as: the one bare value, if the name is used in no other way. */
  lemma ScalarMeans(pairs: seq<Pair>, name: string)
    ensures
      var read := ScalarOf(EntryOf(Parsed(pairs), name));
      var bare := Addressed(pairs, name, Bare);
      if Addressed(pairs, name, Object) != [] || Addressed(pairs, name, Appended) != [] || !NoIndex(pairs, name)
         || |bare| > 1
      then read == Err(BadRequest)
      else read == Ok(if bare == [] then None else Some(bare[0]))
  {
    hide Addressed, Parsed, NoIndex;
    ParsedEntries(pairs, name);
    NoIndexMeansNone(pairs, name);
    var entry := EntryOf(Parsed(pairs), name);
    assert Listed(entry, Bare) == entry.bare && Listed(entry, Appended) == entry.appended;
  }
}
