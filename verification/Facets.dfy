/** The facet compiler of the poem list: six optional filters become a row query and a count query over
    different joins. The queries are a small syntax tree with SQL's three-valued semantics. */
module Facets {
  import opened Wrappers

  // ---------------------------------------------------------------------------------------------
  // The database

  /** A row of a taxonomy table. Only poets have an era. */
  datatype Term = Term(id: int, slug: string, eraId: Option<int>)

  datatype Poem = Poem(
    id: int, poetId: Option<int>, meterId: Option<int>, themeId: Option<int>, rhymeId: Option<int>,
    collectionId: Option<int>)

  datatype Database = Database(
    poems: seq<Poem>, poets: seq<Term>, eras: seq<Term>, meters: seq<Term>, themes: seq<Term>,
    rhymes: seq<Term>, collections: seq<Term>)

  /** What a client may filter by; an empty list filters nothing. */
  datatype Filters = Filters(
    poet: seq<string>, era: seq<string>, theme: seq<string>, meter: seq<string>, rhyme: seq<string>,
    collection: seq<string>)

  // ---------------------------------------------------------------------------------------------
  // The queries

  datatype Join = Poets | Meters | Eras

  datatype Column = PoetId | MeterId | ThemeId | RhymeId | CollectionId

  datatype Lookup = PoetTable | MeterTable | ThemeTable | RhymeTable | CollectionTable

  /** `column = (SELECT id FROM table WHERE slug = ($n)[1])`,
      `column IN (SELECT id FROM table WHERE slug = ANY($n))` and `e.slug = ANY($n)`. */
  datatype Condition =
    | EqFirst(column: Column, table: Lookup, param: nat)
    | InAny(column: Column, table: Lookup, param: nat)
    | EraSlugAny(param: nat)

  /** Rows are ordered by the poem's id; the last two placeholders are the page. */
  datatype RowQuery = RowQuery(joins: seq<Join>, where: seq<Condition>, limit: nat, offset: nat)

  datatype CountQuery = CountQuery(joins: seq<Join>, where: seq<Condition>)

  datatype Bind = Texts(values: seq<string>) | Number(value: int)

  // ---------------------------------------------------------------------------------------------
  // The compiler

  datatype FacetKind =
    | Fk(column: Column, table: Lookup)
    | Slug(reachedThrough: set<Join>)

  datatype Facet = Facet(kind: FacetKind, values: seq<string>)

  function FacetsOf(filters: Filters): seq<Facet> {
    [Facet(Fk(PoetId, PoetTable), filters.poet),
     Facet(Slug({Poets, Eras}), filters.era),
     Facet(Fk(MeterId, MeterTable), filters.meter),
     Facet(Fk(ThemeId, ThemeTable), filters.theme),
     Facet(Fk(RhymeId, RhymeTable), filters.rhyme),
     Facet(Fk(CollectionId, CollectionTable), filters.collection)]
  }

  /** The compiler's three accumulators. */
  datatype Draft = Draft(filtered: set<Join>, where: seq<Condition>, bound: seq<seq<string>>)

  function ConditionFor(facet: Facet, param: nat): Condition {
    match facet.kind
    case Fk(column, table) =>
      if |facet.values| == 1 then EqFirst(column, table, param) else InAny(column, table, param)
    case Slug(_) => EraSlugAny(param)
  }

  function Drafted(facets: seq<Facet>, n: nat): Draft
    requires n <= |facets|
  {
    if n == 0 then Draft({}, [], [])
    else
      var draft := Drafted(facets, n - 1);
      var facet := facets[n - 1];
      if facet.values == [] then draft
      else Draft(draft.filtered + (if facet.kind.Slug? then facet.kind.reachedThrough else {}),
                 draft.where + [ConditionFor(facet, |draft.bound| + 1)],
                 draft.bound + [facet.values])
  }

  /** Joins come out in the order of the enumeration: poets, meters, eras. */
  function JoinList(tables: set<Join>): seq<Join> {
    (if Poets in tables then [Poets] else [])
    + (if Meters in tables then [Meters] else [])
    + (if Eras in tables then [Eras] else [])
  }

  method Clauses(filters: Filters)
    returns (rowJoins: seq<Join>, countJoins: seq<Join>, where: seq<Condition>, bound: seq<seq<string>>)
    ensures where == Drafted(FacetsOf(filters), 6).where && bound == Drafted(FacetsOf(filters), 6).bound
    ensures countJoins == JoinList(Drafted(FacetsOf(filters), 6).filtered)
    ensures rowJoins == JoinList(Drafted(FacetsOf(filters), 6).filtered + {Poets, Meters})
  {
    var filtered: set<Join> := {};
    where, bound := [], [];
    var facets := FacetsOf(filters);
    var i := 0;
    while i < |facets|
      invariant 0 <= i <= |facets|
      invariant Draft(filtered, where, bound) == Drafted(facets, i)
    {
      var Facet(kind, values) := facets[i];
      i := i + 1;
      if values == [] {
        continue;
      }
      bound := bound + [values];
      var n := |bound|;
      match kind {
        case Fk(column, table) =>
          if |values| == 1 {
            where := where + [EqFirst(column, table, n)];
          } else {
            where := where + [InAny(column, table, n)];
          }
        case Slug(reachedThrough) =>
          filtered := filtered + reachedThrough;
          where := where + [EraSlugAny(n)];
      }
    }
    rowJoins := JoinList(filtered + {Poets, Meters});
    countJoins := JoinList(filtered);
  }

  function RowQueryOf(filters: Filters): RowQuery {
    var draft := Drafted(FacetsOf(filters), 6);
    RowQuery(JoinList(draft.filtered + {Poets, Meters}), draft.where, |draft.bound| + 1, |draft.bound| + 2)
  }

  function CountQueryOf(filters: Filters): CountQuery {
    var draft := Drafted(FacetsOf(filters), 6);
    CountQuery(JoinList(draft.filtered), draft.where)
  }

  function TextBinds(bound: seq<seq<string>>): (binds: seq<Bind>)
    ensures |binds| == |bound|
    ensures forall i :: 0 <= i < |bound| ==> binds[i] == Texts(bound[i])
  {
    seq(|bound|, i requires 0 <= i < |bound| => Texts(bound[i]))
  }

  function CountBinds(filters: Filters): seq<Bind> {
    TextBinds(Drafted(FacetsOf(filters), 6).bound)
  }

  /** Pages are numbered from one; page zero is read as the first. */
  function RowBinds(filters: Filters, page: nat, pageSize: nat): seq<Bind> {
    CountBinds(filters) + [Number(pageSize), Number((if page == 0 then 0 else page - 1) * pageSize)]
  }

  // ---------------------------------------------------------------------------------------------
  // What the queries mean

  /** SQL's truth values, and the failure of a query: a scalar subquery with more than one row, an alias
      that is not joined, a placeholder that is not bound to a list. */
  datatype Truth = True | False | Unknown | Failure

  /** One joined row; an alias that is not joined has no row. */
  datatype Env = Env(poem: Poem, poet: Option<Term>, meter: Option<Term>, era: Option<Term>)

  function ColumnOf(poem: Poem, column: Column): Option<int> {
    match column
    case PoetId => poem.poetId
    case MeterId => poem.meterId
    case ThemeId => poem.themeId
    case RhymeId => poem.rhymeId
    case CollectionId => poem.collectionId
  }

  function TableOf(db: Database, table: Lookup): seq<Term> {
    match table
    case PoetTable => db.poets
    case MeterTable => db.meters
    case ThemeTable => db.themes
    case RhymeTable => db.rhymes
    case CollectionTable => db.collections
  }

  /** `SELECT id FROM table WHERE slug = ANY(slugs)`, over the first n rows. */
  function IdsOf(terms: seq<Term>, n: nat, slugs: seq<string>): seq<int>
    requires n <= |terms|
  {
    if n == 0 then []
    else IdsOf(terms, n - 1, slugs) + if terms[n - 1].slug in slugs then [terms[n - 1].id] else []
  }

  function Equals(left: Option<int>, right: Option<int>): Truth {
    if left.None? || right.None? then Unknown else if left.value == right.value then True else False
  }

  function In(left: Option<int>, right: seq<int>): Truth {
    if left.Some? && left.value in right then True
    else if left.None? && right != [] then Unknown
    else False
  }

  function Eval(db: Database, env: Env, condition: Condition, binds: seq<Bind>): Truth {
    if condition.param == 0 || condition.param > |binds| || !binds[condition.param - 1].Texts? then Failure
    else
      var values := binds[condition.param - 1].values;
      match condition
      case EqFirst(column, table, _) =>
        var terms := TableOf(db, table);
        var ids := if values == [] then [] else IdsOf(terms, |terms|, [values[0]]);
        if |ids| > 1 then Failure
        else Equals(ColumnOf(env.poem, column), if ids == [] then None else Some(ids[0]))
      case InAny(column, table, _) =>
        var terms := TableOf(db, table);
        In(ColumnOf(env.poem, column), IdsOf(terms, |terms|, values))
      case EraSlugAny(_) =>
        if env.era.None? then Failure else if env.era.value.slug in values then True else False
  }

  /** `c1 AND c2 AND …` keeps a row exactly when every condition is true. */
  predicate Keeps(db: Database, env: Env, where: seq<Condition>, binds: seq<Bind>) {
    forall i :: 0 <= i < |where| ==> Eval(db, env, where[i], binds) == True
  }

  predicate Fails(db: Database, env: Env, where: seq<Condition>, binds: seq<Bind>) {
    exists i :: 0 <= i < |where| && Eval(db, env, where[i], binds) == Failure
  }

  /** The rows of a table with this id, among the first n; none for NULL. */
  function ById(terms: seq<Term>, n: nat, id: Option<int>): seq<Term>
    requires n <= |terms|
  {
    if n == 0 then []
    else ById(terms, n - 1, id) + if id == Some(terms[n - 1].id) then [terms[n - 1]] else []
  }

  /** The table rows that an inner join pairs with one row. */
  function Partners(db: Database, env: Env, join: Join): seq<Term> {
    match join
    case Poets => ById(db.poets, |db.poets|, env.poem.poetId)
    case Meters => ById(db.meters, |db.meters|, env.poem.meterId)
    case Eras => if env.poet.None? then [] else ById(db.eras, |db.eras|, env.poet.value.eraId)
  }

  function Paired(env: Env, join: Join, row: Term): Env {
    match join
    case Poets => env.(poet := Some(row))
    case Meters => env.(meter := Some(row))
    case Eras => env.(era := Some(row))
  }

  function PairedAll(env: Env, join: Join, rows: seq<Term>, n: nat): seq<Env>
    requires n <= |rows|
  {
    if n == 0 then [] else PairedAll(env, join, rows, n - 1) + [Paired(env, join, rows[n - 1])]
  }

  function Joined(db: Database, envs: seq<Env>, n: nat, join: Join): seq<Env>
    requires n <= |envs|
  {
    if n == 0 then []
    else
      var rows := Partners(db, envs[n - 1], join);
      Joined(db, envs, n - 1, join) + PairedAll(envs[n - 1], join, rows, |rows|)
  }

  /** What becomes of one poem's row in `FROM public.poems p JOIN … JOIN …`, after n joins. */
  function Expanded(db: Database, poem: Poem, joins: seq<Join>, n: nat): seq<Env>
    requires n <= |joins|
  {
    if n == 0 then [Env(poem, None, None, None)]
    else
      var envs := Expanded(db, poem, joins, n - 1);
      Joined(db, envs, |envs|, joins[n - 1])
  }

  function Kept(db: Database, envs: seq<Env>, n: nat, where: seq<Condition>, binds: seq<Bind>): seq<Env>
    requires n <= |envs|
  {
    if n == 0 then []
    else
      Kept(db, envs, n - 1, where, binds)
      + if Keeps(db, envs[n - 1], where, binds) then [envs[n - 1]] else []
  }

  /** `FROM … JOIN … WHERE …`, over the first n poems. */
  function Selected(db: Database, joins: seq<Join>, where: seq<Condition>, binds: seq<Bind>, n: nat): seq<Env>
    requires n <= |db.poems|
  {
    if n == 0 then []
    else
      var envs := Expanded(db, db.poems[n - 1], joins, |joins|);
      Selected(db, joins, where, binds, n - 1) + Kept(db, envs, |envs|, where, binds)
  }

  function Placed(envs: seq<Env>, env: Env): seq<Env> {
    if envs == [] || env.poem.id <= envs[0].poem.id then [env] + envs else [envs[0]] + Placed(envs[1..], env)
  }

  /** `ORDER BY p.id`. */
  function Ordered(envs: seq<Env>): seq<Env> {
    if envs == [] then [] else Placed(Ordered(envs[1..]), envs[0])
  }

  /** `LIMIT size OFFSET from`. */
  function Slice<T>(rows: seq<T>, size: int, from: int): seq<T> {
    if size < 0 || from < 0 || from >= |rows| then []
    else if from + size >= |rows| then rows[from..]
    else rows[from..from + size]
  }

  function NumberAt(binds: seq<Bind>, param: nat): Option<int> {
    if 1 <= param <= |binds| && binds[param - 1].Number? then Some(binds[param - 1].value) else None
  }

  /** What the row query returns, if its page placeholders are bound to numbers. */
  function RowsReturned(db: Database, query: RowQuery, binds: seq<Bind>): Option<seq<Env>> {
    var size, from := NumberAt(binds, query.limit), NumberAt(binds, query.offset);
    if size.None? || from.None? then None
    else
      Some(Slice(Ordered(Selected(db, query.joins, query.where, binds, |db.poems|)), size.value, from.value))
  }

  function CountReturned(db: Database, query: CountQuery, binds: seq<Bind>): nat {
    |Selected(db, query.joins, query.where, binds, |db.poems|)|
  }

  // ---------------------------------------------------------------------------------------------
  // What the client asked for

  /** The row that this foreign key points to has one of these slugs. */
  ghost predicate HasSlug(terms: seq<Term>, id: Option<int>, slugs: seq<string>) {
    exists i :: 0 <= i < |terms| && id == Some(terms[i].id) && terms[i].slug in slugs
  }

  ghost predicate EraHasSlug(db: Database, poem: Poem, slugs: seq<string>) {
    exists i :: 0 <= i < |db.poets| && poem.poetId == Some(db.poets[i].id)
                && HasSlug(db.eras, db.poets[i].eraId, slugs)
  }

  /** Every filter that is given is met; within one filter any of its values will do. */
  ghost predicate Matches(db: Database, filters: Filters, poem: Poem) {
    && (filters.poet == [] || HasSlug(db.poets, poem.poetId, filters.poet))
    && (filters.era == [] || EraHasSlug(db, poem, filters.era))
    && (filters.theme == [] || HasSlug(db.themes, poem.themeId, filters.theme))
    && (filters.meter == [] || HasSlug(db.meters, poem.meterId, filters.meter))
    && (filters.rhyme == [] || HasSlug(db.rhymes, poem.rhymeId, filters.rhyme))
    && (filters.collection == [] || HasSlug(db.collections, poem.collectionId, filters.collection))
  }

  ghost predicate UniqueIds(terms: seq<Term>) {
    forall i, j :: 0 <= i < j < |terms| ==> terms[i].id != terms[j].id
  }

  ghost predicate UniqueSlugs(terms: seq<Term>) {
    forall i, j :: 0 <= i < j < |terms| ==> terms[i].slug != terms[j].slug
  }

  ghost predicate PointsInto(id: Option<int>, terms: seq<Term>) {
    exists i :: 0 <= i < |terms| && id == Some(terms[i].id)
  }

  /** The schema's guarantees: primary keys, unique slugs, and the foreign keys that are not null. */
  ghost predicate Sound(db: Database) {
    && UniqueIds(db.poets) && UniqueIds(db.eras) && UniqueIds(db.meters)
    && UniqueSlugs(db.poets) && UniqueSlugs(db.meters) && UniqueSlugs(db.themes)
    && UniqueSlugs(db.rhymes) && UniqueSlugs(db.collections)
    && (forall i :: 0 <= i < |db.poets| ==> PointsInto(db.poets[i].eraId, db.eras))
    && (forall i :: 0 <= i < |db.poems| ==>
          PointsInto(db.poems[i].poetId, db.poets) && PointsInto(db.poems[i].meterId, db.meters))
    && (forall i, j :: 0 <= i < j < |db.poems| ==> db.poems[i].id != db.poems[j].id)
  }

  // ---------------------------------------------------------------------------------------------
  // Conditions mean membership

  lemma {:induction false} IdsOfMembers(terms: seq<Term>, n: nat, slugs: seq<string>, id: int)
    requires n <= |terms|
    ensures id in IdsOf(terms, n, slugs) <==> exists i :: 0 <= i < n && terms[i].id == id && terms[i].slug in slugs
  {
    if n == 0 {
    } else {
      IdsOfMembers(terms, n - 1, slugs, id);
    }
  }

  lemma IdsOfStep(terms: seq<Term>, n: nat, slug: string)
    requires 1 <= n <= |terms|
    ensures IdsOf(terms, n, [slug])
         == IdsOf(terms, n - 1, [slug]) + if terms[n - 1].slug == slug then [terms[n - 1].id] else []
  {
  }

  lemma NoIds(terms: seq<Term>, slug: string)
    ensures IdsOf(terms, 0, [slug]) == []
  {
  }

  /** A slug that no two rows share is found at most once. */
  lemma {:induction false} OneIdPerSlug(terms: seq<Term>, n: nat, slug: string)
    requires n <= |terms| && UniqueSlugs(terms)
    ensures |IdsOf(terms, n, [slug])| <= 1
    ensures IdsOf(terms, n, [slug]) != [] ==> exists i :: 0 <= i < n && terms[i].slug == slug
  {
    hide IdsOf;
    if n == 0 {
      NoIds(terms, slug);
    } else {
      OneIdPerSlug(terms, n - 1, slug);
      IdsOfStep(terms, n, slug);
      if terms[n - 1].slug == slug {
        assert forall i :: 0 <= i < n - 1 ==> terms[i].slug != slug;
      }
    }
  }

  /** The list form is true exactly for a foreign key to a row with one of the slugs, and never fails. */
  lemma InMeansMembership(db: Database, env: Env, column: Column, table: Lookup, param: nat, binds: seq<Bind>)
    requires 1 <= param <= |binds| && binds[param - 1].Texts?
    ensures Eval(db, env, InAny(column, table, param), binds) != Failure
    ensures Eval(db, env, InAny(column, table, param), binds) == True
       <==> HasSlug(TableOf(db, table), ColumnOf(env.poem, column), binds[param - 1].values)
  {
    var terms, fk := TableOf(db, table), ColumnOf(env.poem, column);
    if fk.Some? {
      IdsOfMembers(terms, |terms|, binds[param - 1].values, fk.value);
    }
  }

  /** For a single value the scalar form keeps the same rows as the list form, for a NULL key and an
      unknown slug alike, and with unique slugs it never fails. */
  lemma EqualsFormAgreesWithInForm(
    db: Database, env: Env, column: Column, table: Lookup, param: nat, binds: seq<Bind>)
    requires 1 <= param <= |binds| && binds[param - 1].Texts? && |binds[param - 1].values| == 1
    requires UniqueSlugs(TableOf(db, table))
    ensures Eval(db, env, EqFirst(column, table, param), binds) != Failure
    ensures Eval(db, env, EqFirst(column, table, param), binds) == True
       <==> Eval(db, env, InAny(column, table, param), binds) == True
  {
    var terms, values := TableOf(db, table), binds[param - 1].values;
    OneIdPerSlug(terms, |terms|, values[0]);
    assert values == [values[0]];
  }

  // ---------------------------------------------------------------------------------------------
  // Joins neither lose nor repeat a poem

  lemma {:induction false} ManyIds(terms: seq<Term>, n: nat, slug: string)
    requires n <= |terms|
    ensures |IdsOf(terms, n, [slug])| > 0 <==> exists i :: 0 <= i < n && terms[i].slug == slug
    ensures |IdsOf(terms, n, [slug])| > 1 <==> exists i, j :: 0 <= i < j < n && terms[i].slug == terms[j].slug == slug
  {
    hide IdsOf;
    if n == 0 {
      NoIds(terms, slug);
    } else {
      ManyIds(terms, n - 1, slug);
      IdsOfStep(terms, n, slug);
    }
  }

  /** The scalar form fails exactly when two rows of the table share the slug. */
  lemma EqualsFormFails(db: Database, env: Env, column: Column, table: Lookup, param: nat, binds: seq<Bind>)
    requires 1 <= param <= |binds| && binds[param - 1].Texts? && |binds[param - 1].values| == 1
    ensures
      var terms := TableOf(db, table);
      Eval(db, env, EqFirst(column, table, param), binds) == Failure
      <==> exists i, j :: 0 <= i < j < |terms| && terms[i].slug == terms[j].slug == binds[param - 1].values[0]
  {
    var terms, values := TableOf(db, table), binds[param - 1].values;
    ManyIds(terms, |terms|, values[0]);
    hide IdsOf;
  }

  lemma {:induction false} ByIdAbsent(terms: seq<Term>, n: nat, id: Option<int>)
    requires n <= |terms| && (forall i :: 0 <= i < n ==> id != Some(terms[i].id))
    ensures ById(terms, n, id) == []
  {
    if n == 0 {
    } else {
      ByIdAbsent(terms, n - 1, id);
    }
  }

  lemma {:induction false} ByIdPresent(terms: seq<Term>, n: nat, i: nat)
    requires i < n <= |terms| && UniqueIds(terms)
    ensures ById(terms, n, Some(terms[i].id)) == [terms[i]]
  {
    if i == n - 1 {
      ByIdAbsent(terms, n - 1, Some(terms[i].id));
    } else {
      ByIdPresent(terms, n - 1, i);
    }
  }

  function First(terms: seq<Term>): Option<Term> {
    if terms == [] then None else Some(terms[0])
  }

  function PoetOf(db: Database, poem: Poem): Option<Term> {
    First(ById(db.poets, |db.poets|, poem.poetId))
  }

  function MeterOf(db: Database, poem: Poem): Option<Term> {
    First(ById(db.meters, |db.meters|, poem.meterId))
  }

  function EraOf(db: Database, poem: Poem): Option<Term> {
    match PoetOf(db, poem)
    case None => None
    case Some(poet) => First(ById(db.eras, |db.eras|, poet.eraId))
  }

  lemma PointsToOne(id: Option<int>, terms: seq<Term>) returns (i: nat)
    requires PointsInto(id, terms) && UniqueIds(terms)
    ensures i < |terms| && id == Some(terms[i].id) && ById(terms, |terms|, id) == [terms[i]]
  {
    i :| 0 <= i < |terms| && id == Some(terms[i].id);
    ByIdPresent(terms, |terms|, i);
  }

  ghost predicate Linked(db: Database, poem: Poem) {
    PointsInto(poem.poetId, db.poets) && PointsInto(poem.meterId, db.meters)
  }

  /** A linked poem has one poet, one meter and one era, and each join finds exactly that row. */
  lemma JoinsFindOneRow(db: Database, poem: Poem)
    requires Sound(db) && Linked(db, poem)
    ensures PoetOf(db, poem).Some? && MeterOf(db, poem).Some? && EraOf(db, poem).Some?
    ensures ById(db.poets, |db.poets|, poem.poetId) == [PoetOf(db, poem).value]
    ensures ById(db.meters, |db.meters|, poem.meterId) == [MeterOf(db, poem).value]
    ensures ById(db.eras, |db.eras|, PoetOf(db, poem).value.eraId) == [EraOf(db, poem).value]
  {
    var p := PointsToOne(poem.poetId, db.poets);
    var m := PointsToOne(poem.meterId, db.meters);
    assert PointsInto(db.poets[p].eraId, db.eras);
    var e := PointsToOne(db.poets[p].eraId, db.eras);
  }

  predicate JoinedBefore(joins: seq<Join>, n: nat, join: Join)
    requires n <= |joins|
  {
    exists i :: 0 <= i < n && joins[i] == join
  }

  /** Every alias is joined before a later join or a condition uses it. */
  ghost predicate InScope(joins: seq<Join>, where: seq<Condition>) {
    && (forall i :: 0 <= i < |joins| && joins[i] == Eras ==> JoinedBefore(joins, i, Poets))
    && (forall i :: 0 <= i < |where| && where[i].EraSlugAny? ==> JoinedBefore(joins, |joins|, Eras))
  }

  function OnlyIf<T>(condition: bool, value: Option<T>): Option<T> {
    if condition then value else None
  }

  /** The one row a poem becomes after n joins. */
  function EnvOf(db: Database, poem: Poem, joins: seq<Join>, n: nat): Env
    requires n <= |joins|
  {
    Env(poem,
        OnlyIf(JoinedBefore(joins, n, Poets), PoetOf(db, poem)),
        OnlyIf(JoinedBefore(joins, n, Meters), MeterOf(db, poem)),
        OnlyIf(JoinedBefore(joins, n, Eras), EraOf(db, poem)))
  }

  lemma JoinedBeforeNext(joins: seq<Join>, n: nat, join: Join)
    requires n < |joins|
    ensures JoinedBefore(joins, n + 1, join) <==> JoinedBefore(joins, n, join) || joins[n] == join
  {
  }

  lemma JoiningOne(db: Database, env: Env, join: Join, row: Term)
    requires Partners(db, env, join) == [row]
    ensures Joined(db, [env], 1, join) == [Paired(env, join, row)]
  {
    assert PairedAll(env, join, [row], 0) == [];
    assert Joined(db, [env], 0, join) == [];
  }

  lemma ErasNeedPoets(joins: seq<Join>, i: nat)
    requires InScope(joins, []) && i < |joins| && joins[i] == Eras
    ensures JoinedBefore(joins, i, Poets)
  {
  }

  lemma NextEnv(db: Database, poem: Poem, joins: seq<Join>, n: nat)
    requires Sound(db) && Linked(db, poem) && InScope(joins, []) && n < |joins|
    ensures
      var rows := Partners(db, EnvOf(db, poem, joins, n), joins[n]);
      |rows| == 1 && EnvOf(db, poem, joins, n + 1) == Paired(EnvOf(db, poem, joins, n), joins[n], rows[0])
  {
    hide Sound, Linked, InScope, ById, JoinedBefore, PoetOf, MeterOf, EraOf;
    JoinsFindOneRow(db, poem);
    JoinedBeforeNext(joins, n, Poets);
    JoinedBeforeNext(joins, n, Meters);
    JoinedBeforeNext(joins, n, Eras);
    if joins[n] == Eras {
      ErasNeedPoets(joins, n);
    }
  }

  /** The joins neither lose nor repeat a poem. */
  lemma {:induction false} ExpandedOnce(db: Database, poem: Poem, joins: seq<Join>, n: nat)
    requires Sound(db) && Linked(db, poem) && InScope(joins, []) && n <= |joins|
    ensures Expanded(db, poem, joins, n) == [EnvOf(db, poem, joins, n)]
  {
    hide Sound, Linked, InScope, Partners, Joined;
    if n == 0 {
    } else {
      ExpandedOnce(db, poem, joins, n - 1);
      NextEnv(db, poem, joins, n - 1);
      var env := EnvOf(db, poem, joins, n - 1);
      var rows := Partners(db, env, joins[n - 1]);
      assert rows == [rows[0]];
      JoiningOne(db, env, joins[n - 1], rows[0]);
    }
  }

  // ---------------------------------------------------------------------------------------------
  // The conditions mean the filters

  ghost predicate FacetHolds(db: Database, facet: Facet, poem: Poem) {
    match facet.kind
    case Fk(column, table) => HasSlug(TableOf(db, table), ColumnOf(poem, column), facet.values)
    case Slug(_) => EraHasSlug(db, poem, facet.values)
  }

  ghost predicate TableIsUnique(db: Database, facet: Facet) {
    facet.kind.Fk? ==> UniqueSlugs(TableOf(db, facet.kind.table))
  }

  lemma EraMeans(db: Database, poem: Poem, slugs: seq<string>)
    requires Sound(db) && Linked(db, poem)
    ensures EraOf(db, poem).Some?
    ensures EraOf(db, poem).value.slug in slugs <==> EraHasSlug(db, poem, slugs)
  {
    JoinsFindOneRow(db, poem);
    var p := PointsToOne(poem.poetId, db.poets);
    assert PointsInto(db.poets[p].eraId, db.eras);
    var e := PointsToOne(db.poets[p].eraId, db.eras);
    if db.eras[e].slug in slugs {
      assert HasSlug(db.eras, db.poets[p].eraId, slugs);
    }
    if EraHasSlug(db, poem, slugs) {
      var i :| 0 <= i < |db.poets| && poem.poetId == Some(db.poets[i].id) && HasSlug(db.eras, db.poets[i].eraId, slugs);
      assert i == p;
      var k :| 0 <= k < |db.eras| && db.poets[p].eraId == Some(db.eras[k].id) && db.eras[k].slug in slugs;
      assert k == e;
    }
  }

  lemma ConditionMeans(db: Database, env: Env, facet: Facet, param: nat, binds: seq<Bind>)
    requires Sound(db) && Linked(db, env.poem) && TableIsUnique(db, facet)
    requires 1 <= param <= |binds| && binds[param - 1] == Texts(facet.values)
    requires facet.kind.Slug? ==> env.era == EraOf(db, env.poem)
    ensures Eval(db, env, ConditionFor(facet, param), binds) != Failure
    ensures Eval(db, env, ConditionFor(facet, param), binds) == True <==> FacetHolds(db, facet, env.poem)
  {
    match facet.kind {
      case Fk(column, table) =>
        InMeansMembership(db, env, column, table, param, binds);
        if |facet.values| == 1 {
          EqualsFormAgreesWithInForm(db, env, column, table, param, binds);
        }
      case Slug(_) => EraMeans(db, env.poem, facet.values);
    }
  }

  /** Placeholders are numbered 1 to n in the order in which the lists are bound. */
  lemma {:induction false} PlaceholdersInOrder(facets: seq<Facet>, n: nat)
    requires n <= |facets|
    ensures |Drafted(facets, n).where| == |Drafted(facets, n).bound| <= n
    ensures forall i :: 0 <= i < |Drafted(facets, n).where| ==> Drafted(facets, n).where[i].param == i + 1
  {
    if n == 0 {
    } else {
      PlaceholdersInOrder(facets, n - 1);
    }
  }

  ghost predicate BindsStart(binds: seq<Bind>, bound: seq<seq<string>>) {
    |bound| <= |binds| && forall i :: 0 <= i < |bound| ==> binds[i] == Texts(bound[i])
  }

  lemma BindsShrink(binds: seq<Bind>, bound: seq<seq<string>>, last: seq<string>)
    requires BindsStart(binds, bound + [last])
    ensures BindsStart(binds, bound) && |bound| < |binds| && binds[|bound|] == Texts(last)
  {
    assert (bound + [last])[|bound|] == last;
    assert forall i :: 0 <= i < |bound| ==> (bound + [last])[i] == bound[i];
  }

  lemma KeepsNothing(db: Database, env: Env, binds: seq<Bind>)
    ensures Keeps(db, env, [], binds) && !Fails(db, env, [], binds)
  {
  }

  lemma KeepsSnoc(db: Database, env: Env, where: seq<Condition>, condition: Condition, binds: seq<Bind>)
    ensures Keeps(db, env, where + [condition], binds)
       <==> Keeps(db, env, where, binds) && Eval(db, env, condition, binds) == True
    ensures Fails(db, env, where + [condition], binds)
       <==> Fails(db, env, where, binds) || Eval(db, env, condition, binds) == Failure
  {
    hide Eval;
    var all := where + [condition];
    assert all[|where|] == condition;
    if Keeps(db, env, all, binds) {
      forall i | 0 <= i < |where|
        ensures Eval(db, env, where[i], binds) == True
      {
        assert all[i] == where[i];
      }
    }
    if Fails(db, env, where, binds) {
      var i :| 0 <= i < |where| && Eval(db, env, where[i], binds) == Failure;
      assert all[i] == where[i];
    }
  }

  lemma {:induction false} DraftMeans(db: Database, facets: seq<Facet>, n: nat, env: Env, binds: seq<Bind>)
    requires n <= |facets| && Sound(db) && Linked(db, env.poem)
    requires forall i :: 0 <= i < |facets| ==> TableIsUnique(db, facets[i])
    requires forall i :: 0 <= i < n && facets[i].kind.Slug? && facets[i].values != [] ==>
               env.era == EraOf(db, env.poem)
    requires BindsStart(binds, Drafted(facets, n).bound)
    ensures !Fails(db, env, Drafted(facets, n).where, binds)
    ensures Keeps(db, env, Drafted(facets, n).where, binds)
       <==> forall i :: 0 <= i < n ==> facets[i].values == [] || FacetHolds(db, facets[i], env.poem)
  {
    hide Sound, Linked, TableIsUnique, Eval, FacetHolds, ConditionFor, EraOf, Keeps, Fails;
    if n == 0 {
      KeepsNothing(db, env, binds);
    } else {
      var before, facet := Drafted(facets, n - 1), facets[n - 1];
      var after := Drafted(facets, n);
      PlaceholdersInOrder(facets, n - 1);
      if facet.values == [] {
        DraftMeans(db, facets, n - 1, env, binds);
      } else {
        BindsShrink(binds, before.bound, facet.values);
        DraftMeans(db, facets, n - 1, env, binds);
        var condition := ConditionFor(facet, |before.bound| + 1);
        ConditionMeans(db, env, facet, |before.bound| + 1, binds);
        KeepsSnoc(db, env, before.where, condition, binds);
      }
    }
  }

  // ---------------------------------------------------------------------------------------------
  // The compiled queries

  lemma TablesAreUnique(db: Database, filters: Filters)
    requires Sound(db)
    ensures forall i :: 0 <= i < 6 ==> TableIsUnique(db, FacetsOf(filters)[i])
  {
    forall i | 0 <= i < 6
      ensures TableIsUnique(db, FacetsOf(filters)[i])
    {
    }
  }

  /** The six facets are the six filters. */
  lemma FacetsAreFilters(db: Database, filters: Filters, poem: Poem)
    ensures Matches(db, filters, poem)
       <==> forall i :: 0 <= i < 6 ==>
              FacetsOf(filters)[i].values == [] || FacetHolds(db, FacetsOf(filters)[i], poem)
  {
    hide HasSlug, EraHasSlug;
    var facets := FacetsOf(filters);
    if forall i :: 0 <= i < 6 ==> facets[i].values == [] || FacetHolds(db, facets[i], poem) {
      assert facets[0].values == [] || FacetHolds(db, facets[0], poem);
      assert facets[1].values == [] || FacetHolds(db, facets[1], poem);
      assert facets[2].values == [] || FacetHolds(db, facets[2], poem);
      assert facets[3].values == [] || FacetHolds(db, facets[3], poem);
      assert facets[4].values == [] || FacetHolds(db, facets[4], poem);
      assert facets[5].values == [] || FacetHolds(db, facets[5], poem);
    }
  }

  /** Which tables the conditions need, and which conditions use an era. */
  lemma {:induction false} DraftJoins(filters: Filters, n: nat)
    requires n <= 6
    ensures Drafted(FacetsOf(filters), n).filtered == if n >= 2 && filters.era != [] then {Poets, Eras} else {}
    ensures forall i :: 0 <= i < |Drafted(FacetsOf(filters), n).where| ==>
              Drafted(FacetsOf(filters), n).where[i].EraSlugAny? ==> n >= 2 && filters.era != []
  {
    if n == 0 {
    } else {
      DraftJoins(filters, n - 1);
      assert FacetsOf(filters)[1].kind == Slug({Poets, Eras});
      assert FacetsOf(filters)[n - 1].kind.Slug? <==> n == 2;
    }
  }

  /** Both queries join every alias before it is used, bind the lists as 1 to n, and the row query
      takes n + 1 and n + 2 for the page. */
  lemma QueriesAreWellFormed(filters: Filters)
    ensures InScope(RowQueryOf(filters).joins, RowQueryOf(filters).where)
    ensures InScope(CountQueryOf(filters).joins, CountQueryOf(filters).where)
    ensures RowQueryOf(filters).where == CountQueryOf(filters).where
    ensures
      var n := |CountBinds(filters)|;
      && |CountQueryOf(filters).where| == n
      && (forall i :: 0 <= i < n ==> CountQueryOf(filters).where[i].param == i + 1)
      && RowQueryOf(filters).limit == n + 1 && RowQueryOf(filters).offset == n + 2
    ensures JoinedBefore(RowQueryOf(filters).joins, |RowQueryOf(filters).joins|, Poets)
    ensures JoinedBefore(RowQueryOf(filters).joins, |RowQueryOf(filters).joins|, Meters)
    ensures filters.era != [] ==> JoinedBefore(CountQueryOf(filters).joins, |CountQueryOf(filters).joins|, Eras)
    ensures filters.era != [] ==> JoinedBefore(RowQueryOf(filters).joins, |RowQueryOf(filters).joins|, Eras)
  {
    PlaceholdersInOrder(FacetsOf(filters), 6);
    DraftJoins(filters, 6);
    var filtered := Drafted(FacetsOf(filters), 6).filtered;
    if filters.era == [] {
      assert JoinList(filtered) == [] && JoinList(filtered + {Poets, Meters}) == [Poets, Meters];
      assert JoinedBefore([Poets, Meters], 2, Poets) && JoinedBefore([Poets, Meters], 2, Meters) by {
        assert [Poets, Meters][0] == Poets && [Poets, Meters][1] == Meters;
      }
    } else {
      var few, many := [Poets, Eras], [Poets, Meters, Eras];
      assert JoinList(filtered) == few && JoinList(filtered + {Poets, Meters}) == many;
      assert few[0] == Poets && few[1] == Eras && many[0] == Poets && many[1] == Meters && many[2] == Eras;
    }
  }

  /** On a poem's row, no condition fails, and the row is kept exactly when the poem matches. */
  lemma RowIsKeptIffMatches(db: Database, filters: Filters, env: Env, binds: seq<Bind>)
    requires Sound(db) && Linked(db, env.poem)
    requires filters.era != [] ==> env.era == EraOf(db, env.poem)
    requires BindsStart(binds, Drafted(FacetsOf(filters), 6).bound)
    ensures !Fails(db, env, Drafted(FacetsOf(filters), 6).where, binds)
    ensures Keeps(db, env, Drafted(FacetsOf(filters), 6).where, binds) <==> Matches(db, filters, env.poem)
  {
    hide Sound, Linked, Drafted, Fails, Keeps, Matches, FacetHolds, BindsStart, TableIsUnique;
    TablesAreUnique(db, filters);
    FacetsAreFilters(db, filters, env.poem);
    assert forall i :: 0 <= i < 6 && FacetsOf(filters)[i].kind.Slug? ==> i == 1;
    DraftMeans(db, FacetsOf(filters), 6, env, binds);
  }

  /** The matching poems, in table order, each as the row that these joins make of it. */
  ghost function WantedRows(db: Database, filters: Filters, joins: seq<Join>, n: nat): seq<Env>
    requires n <= |db.poems|
  {
    if n == 0 then []
    else
      WantedRows(db, filters, joins, n - 1)
      + if Matches(db, filters, db.poems[n - 1]) then [EnvOf(db, db.poems[n - 1], joins, |joins|)] else []
  }

  lemma PoemsAreLinked(db: Database, i: nat)
    requires Sound(db) && i < |db.poems|
    ensures Linked(db, db.poems[i])
  {
  }

  lemma KeptOne(db: Database, env: Env, where: seq<Condition>, binds: seq<Bind>)
    ensures Kept(db, [env], 1, where, binds) == if Keeps(db, env, where, binds) then [env] else []
  {
    assert Kept(db, [env], 0, where, binds) == [];
  }

  lemma {:induction false} SelectsWhatIsWanted(
    db: Database, filters: Filters, joins: seq<Join>, binds: seq<Bind>, n: nat)
    requires Sound(db) && n <= |db.poems| && InScope(joins, [])
    requires filters.era != [] ==> JoinedBefore(joins, |joins|, Eras)
    requires BindsStart(binds, Drafted(FacetsOf(filters), 6).bound)
    ensures Selected(db, joins, Drafted(FacetsOf(filters), 6).where, binds, n) == WantedRows(db, filters, joins, n)
  {
    hide Sound, Linked, Drafted, Keeps, Kept, Matches, BindsStart, Expanded, InScope, JoinedBefore;
    if n == 0 {
    } else {
      SelectsWhatIsWanted(db, filters, joins, binds, n - 1);
      var poem := db.poems[n - 1];
      PoemsAreLinked(db, n - 1);
      ExpandedOnce(db, poem, joins, |joins|);
      var env := EnvOf(db, poem, joins, |joins|);
      RowIsKeptIffMatches(db, filters, env, binds);
      KeptOne(db, env, Drafted(FacetsOf(filters), 6).where, binds);
    }
  }

  ghost predicate Ascending(rows: seq<Env>) {
    forall i, j :: 0 <= i < j < |rows| ==> rows[i].poem.id < rows[j].poem.id
  }

  lemma {:induction false} PlacedMembers(rows: seq<Env>, row: Env, e: Env)
    ensures e in Placed(rows, row) <==> e == row || e in rows
    ensures |Placed(rows, row)| == |rows| + 1
  {
    if rows == [] || row.poem.id <= rows[0].poem.id {
    } else {
      PlacedMembers(rows[1..], row, e);
      assert rows == [rows[0]] + rows[1..];
    }
  }

  lemma {:induction false} PlacedAscends(rows: seq<Env>, row: Env)
    requires Ascending(rows) && forall i :: 0 <= i < |rows| ==> rows[i].poem.id != row.poem.id
    ensures Ascending(Placed(rows, row))
  {
    if rows == [] || row.poem.id <= rows[0].poem.id {
    } else {
      PlacedAscends(rows[1..], row);
      var rest := Placed(rows[1..], row);
      forall k | 0 <= k < |rest|
        ensures rows[0].poem.id < rest[k].poem.id
      {
        PlacedMembers(rows[1..], row, rest[k]);
        if rest[k] in rows[1..] {
          var i :| 0 <= i < |rows[1..]| && rows[1..][i] == rest[k];
          assert rows[i + 1] == rest[k];
        }
      }
    }
  }

  /** Ordering rows of distinct poems sorts them by the poem's id and neither drops nor repeats any. */
  lemma {:induction false} OrderedAscends(rows: seq<Env>)
    requires forall i, j :: 0 <= i < j < |rows| ==> rows[i].poem.id != rows[j].poem.id
    ensures Ascending(Ordered(rows))
    ensures forall row :: row in Ordered(rows) <==> row in rows
  {
    if rows == [] {
    } else {
      OrderedAscends(rows[1..]);
      var rest := Ordered(rows[1..]);
      forall i | 0 <= i < |rest|
        ensures rest[i].poem.id != rows[0].poem.id
      {
        assert rest[i] in rows[1..];
        var k :| 0 <= k < |rows[1..]| && rows[1..][k] == rest[i];
        assert rows[k + 1] == rest[i];
      }
      PlacedAscends(rest, rows[0]);
      forall row
        ensures row in Ordered(rows) <==> row in rows
      {
        PlacedMembers(rest, rows[0], row);
        assert rows == [rows[0]] + rows[1..];
      }
    }
  }

  lemma {:induction false} OrderedLength(rows: seq<Env>)
    ensures |Ordered(rows)| == |rows|
  {
    if rows == [] {
    } else {
      OrderedLength(rows[1..]);
      PlacedMembers(Ordered(rows[1..]), rows[0], rows[0]);
    }
  }

  lemma {:induction false} WantedMembers(db: Database, filters: Filters, joins: seq<Join>, n: nat, row: Env)
    requires n <= |db.poems|
    ensures row in WantedRows(db, filters, joins, n)
       <==> exists i :: 0 <= i < n && Matches(db, filters, db.poems[i])
                        && row == EnvOf(db, db.poems[i], joins, |joins|)
  {
    hide Matches, EnvOf;
    if n == 0 {
    } else {
      WantedMembers(db, filters, joins, n - 1, row);
    }
  }

  lemma {:induction false} WantedAreDistinct(db: Database, filters: Filters, joins: seq<Join>, n: nat)
    requires n <= |db.poems|
    requires forall i, j :: 0 <= i < j < |db.poems| ==> db.poems[i].id != db.poems[j].id
    ensures forall i, j :: 0 <= i < j < |WantedRows(db, filters, joins, n)| ==>
              WantedRows(db, filters, joins, n)[i].poem.id != WantedRows(db, filters, joins, n)[j].poem.id
  {
    hide Matches;
    if n == 0 {
    } else {
      var before := WantedRows(db, filters, joins, n - 1);
      WantedAreDistinct(db, filters, joins, n - 1);
      forall i | 0 <= i < |before|
        ensures before[i].poem.id != db.poems[n - 1].id
      {
        WantedMembers(db, filters, joins, n - 1, before[i]);
      }
    }
  }

  lemma {:induction false} WantedCount(db: Database, filters: Filters, first: seq<Join>, second: seq<Join>, n: nat)
    requires n <= |db.poems|
    ensures |WantedRows(db, filters, first, n)| == |WantedRows(db, filters, second, n)|
  {
    if n == 0 {
    } else {
      WantedCount(db, filters, first, second, n - 1);
    }
  }

  /** All the rows of the row query, before the page is cut out. */
  ghost function AllRows(db: Database, filters: Filters): seq<Env> {
    Ordered(WantedRows(db, filters, RowQueryOf(filters).joins, |db.poems|))
  }

  lemma BindsAreRight(filters: Filters, page: nat, pageSize: nat)
    ensures BindsStart(CountBinds(filters), Drafted(FacetsOf(filters), 6).bound)
    ensures BindsStart(RowBinds(filters, page, pageSize), Drafted(FacetsOf(filters), 6).bound)
    ensures NumberAt(RowBinds(filters, page, pageSize), RowQueryOf(filters).limit) == Some(pageSize)
    ensures NumberAt(RowBinds(filters, page, pageSize), RowQueryOf(filters).offset)
         == Some((if page == 0 then 0 else page - 1) * pageSize)
  {
    var bound := Drafted(FacetsOf(filters), 6).bound;
    var binds := RowBinds(filters, page, pageSize);
    assert |CountBinds(filters)| == |bound|;
    assert forall i :: 0 <= i < |bound| ==> binds[i] == CountBinds(filters)[i];
    assert binds[|bound|] == Number(pageSize);
  }

  lemma ScopeOfJoins(joins: seq<Join>, where: seq<Condition>)
    requires InScope(joins, where)
    ensures InScope(joins, [])
  {
  }

  /** The row query answers with one page of all its rows, and the count query with their number. */
  lemma QueriesAnswer(db: Database, filters: Filters, page: nat, pageSize: nat)
    requires Sound(db)
    ensures RowsReturned(db, RowQueryOf(filters), RowBinds(filters, page, pageSize))
         == Some(Slice(AllRows(db, filters), pageSize, (if page == 0 then 0 else page - 1) * pageSize))
    ensures CountReturned(db, CountQueryOf(filters), CountBinds(filters)) == |AllRows(db, filters)|
  {
    hide Sound, Drafted, Selected, WantedRows, InScope, JoinedBefore, BindsStart, NumberAt;
    hide RowBinds, CountBinds, Ordered, Slice, JoinList;
    BindsAreRight(filters, page, pageSize);
    QueriesAreWellFormed(filters);
    ScopeOfJoins(RowQueryOf(filters).joins, RowQueryOf(filters).where);
    ScopeOfJoins(CountQueryOf(filters).joins, CountQueryOf(filters).where);
    SelectsWhatIsWanted(db, filters, RowQueryOf(filters).joins, RowBinds(filters, page, pageSize), |db.poems|);
    SelectsWhatIsWanted(db, filters, CountQueryOf(filters).joins, CountBinds(filters), |db.poems|);
    WantedCount(db, filters, RowQueryOf(filters).joins, CountQueryOf(filters).joins, |db.poems|);
    OrderedLength(WantedRows(db, filters, RowQueryOf(filters).joins, |db.poems|));
  }

  /** Neither query ever fails: no condition finds two rows for a slug, reads an alias that is not
      joined, or meets a placeholder of the wrong kind. */
  lemma QueriesNeverFail(db: Database, filters: Filters, page: nat, pageSize: nat, i: nat)
    requires Sound(db) && i < |db.poems|
    ensures
      var query := RowQueryOf(filters);
      var envs := Expanded(db, db.poems[i], query.joins, |query.joins|);
      |envs| == 1 && !Fails(db, envs[0], query.where, RowBinds(filters, page, pageSize))
    ensures
      var query := CountQueryOf(filters);
      var envs := Expanded(db, db.poems[i], query.joins, |query.joins|);
      |envs| == 1 && !Fails(db, envs[0], query.where, CountBinds(filters))
  {
    hide Sound, Linked, Drafted, Fails, Keeps, Matches, BindsStart, Expanded, InScope, JoinedBefore, JoinList;
    hide RowBinds, CountBinds, EraOf, PoetOf, MeterOf;
    BindsAreRight(filters, page, pageSize);
    QueriesAreWellFormed(filters);
    PoemsAreLinked(db, i);
    var rows, count := RowQueryOf(filters), CountQueryOf(filters);
    ScopeOfJoins(rows.joins, rows.where);
    ScopeOfJoins(count.joins, count.where);
    ExpandedOnce(db, db.poems[i], rows.joins, |rows.joins|);
    ExpandedOnce(db, db.poems[i], count.joins, |count.joins|);
    RowIsKeptIffMatches(db, filters, EnvOf(db, db.poems[i], rows.joins, |rows.joins|),
                        RowBinds(filters, page, pageSize));
    RowIsKeptIffMatches(db, filters, EnvOf(db, db.poems[i], count.joins, |count.joins|), CountBinds(filters));
  }

  lemma EnvOfPoem(db: Database, joins: seq<Join>)
    ensures forall poem :: EnvOf(db, poem, joins, |joins|).poem == poem
  {
  }

  /** A row is among all the rows exactly when it is what the joins make of a matching poem. */
  lemma AllRowsMembers(db: Database, filters: Filters, row: Env)
    requires Sound(db)
    ensures Ascending(AllRows(db, filters))
    ensures row in AllRows(db, filters)
       <==> row.poem in db.poems && Matches(db, filters, row.poem)
            && row == EnvOf(db, row.poem, RowQueryOf(filters).joins, |RowQueryOf(filters).joins|)
  {
    hide Matches, EnvOf, Drafted, JoinList, UniqueIds, UniqueSlugs, PointsInto;
    var joins := RowQueryOf(filters).joins;
    WantedAreDistinct(db, filters, joins, |db.poems|);
    OrderedAscends(WantedRows(db, filters, joins, |db.poems|));
    WantedMembers(db, filters, joins, |db.poems|, row);
    EnvOfPoem(db, joins);
  }

  /** Meaning is preserved: in id order, the rows are exactly the poems that match the filters, each
      once, with its own poet and meter. */
  lemma RowsAreTheMatchingPoems(db: Database, filters: Filters, poem: Poem)
    requires Sound(db)
    ensures Ascending(AllRows(db, filters))
    ensures (exists row :: row in AllRows(db, filters) && row.poem == poem)
       <==> poem in db.poems && Matches(db, filters, poem)
    ensures forall row :: row in AllRows(db, filters) && row.poem == poem ==>
              row.poet == PoetOf(db, poem) && row.meter == MeterOf(db, poem)
  {
    hide Sound, Matches, PoetOf, MeterOf, EraOf, JoinedBefore, InScope, Drafted, AllRows, RowQueryOf;
    var joins := RowQueryOf(filters).joins;
    var full := EnvOf(db, poem, joins, |joins|);
    AllRowsMembers(db, filters, full);
    QueriesAreWellFormed(filters);
    forall row | row in AllRows(db, filters) && row.poem == poem
      ensures row == full
    {
      AllRowsMembers(db, filters, row);
    }
  }

  // ---------------------------------------------------------------------------------------------
  // Pages

  /** The first k pages, one after another. */
  function PagesUpTo<T>(rows: seq<T>, pageSize: nat, k: nat): seq<T> {
    if k == 0 then [] else PagesUpTo(rows, pageSize, k - 1) + Slice(rows, pageSize, (k - 1) * pageSize)
  }

  lemma SliceExtends<T>(rows: seq<T>, size: nat, from: nat)
    ensures (if from < |rows| then rows[..from] else rows) + Slice(rows, size, from)
         == if from + size < |rows| then rows[..from + size] else rows
  {
  }

  lemma {:induction false} PagesTile<T>(rows: seq<T>, pageSize: nat, k: nat)
    ensures PagesUpTo(rows, pageSize, k) == if k * pageSize < |rows| then rows[..k * pageSize] else rows
  {
    if k == 0 {
    } else {
      PagesTile(rows, pageSize, k - 1);
      var from := (k - 1) * pageSize;
      assert k * pageSize == from + pageSize;
      SliceExtends(rows, pageSize, from);
    }
  }

  /** All the pages together are all the matching poems, as many as the count query says. */
  lemma PagesAreComplete(db: Database, filters: Filters, pageSize: nat, k: nat)
    requires Sound(db) && pageSize >= 1
    requires k * pageSize >= CountReturned(db, CountQueryOf(filters), CountBinds(filters))
    ensures PagesUpTo(AllRows(db, filters), pageSize, k) == AllRows(db, filters)
    ensures forall page :: 1 <= page <= k ==>
              RowsReturned(db, RowQueryOf(filters), RowBinds(filters, page, pageSize))
              == Some(Slice(AllRows(db, filters), pageSize, (page - 1) * pageSize))
  {
    hide Sound, AllRows, CountReturned, RowsReturned, RowBinds, RowQueryOf;
    QueriesAnswer(db, filters, 1, pageSize);
    PagesTile(AllRows(db, filters), pageSize, k);
    forall page | 1 <= page <= k
      ensures RowsReturned(db, RowQueryOf(filters), RowBinds(filters, page, pageSize))
           == Some(Slice(AllRows(db, filters), pageSize, (page - 1) * pageSize))
    {
      QueriesAnswer(db, filters, page, pageSize);
    }
  }
}
