/** Start-up of the gateway: when the store is up and set filtering is enabled, every group-list
    query named in the set-queries resource is sent to the backend, and each group it returns is
    cached as a named set of subject identifiers. */
module Initializer {
  import opened JavaText
  import opened Services

  // ---------------------------------------------------------------------------------------------
  // Text clean-up

  /** removeQuotes: every double quote removed. */
  function RemoveQuotes(s: string): (r: string)
    ensures '"' !in r
    ensures multiset(r) == multiset(s)['"' := 0]
  {
    RemoveCounts(s, '"');
    Remove(s, '"')
  }

  lemma RemoveQuotesIdempotent(s: string)
    ensures RemoveQuotes(RemoveQuotes(s)) == RemoveQuotes(s)
  {
    RemoveIdempotent(s, '"');
  }

  /** The serialised subject list with its quotes and brackets removed; every other character
      is kept as often as it occurred. */
  function StripList(s: string): (r: string)
    ensures '"' !in r && '[' !in r && ']' !in r
    ensures multiset(r) == multiset(s)['"' := 0]['[' := 0][']' := 0]
    ensures Within(r, s)
  {
    var a := RemoveQuotes(s);
    var b := Remove(a, '[');
    RemoveCounts(a, '[');
    RemoveKeepsAbsence(a, '[', '"');
    var c := Remove(b, ']');
    RemoveCounts(b, ']');
    RemoveKeepsAbsence(b, ']', '"');
    RemoveKeepsAbsence(b, ']', '[');
    assert forall d :: d in c ==> d in b by {
      forall d | d in c ensures d in b { assert multiset(c)[d] > 0; }
    }
    assert forall d :: d in b ==> d in a by {
      forall d | d in b ensures d in a { assert multiset(b)[d] > 0; }
    }
    assert forall d :: d in a ==> d in s by {
      forall d | d in a ensures d in s { assert multiset(a)[d] > 0; }
    }
    c
  }

  /** formatSubjects: the serialised JSON array of subject identifiers, quotes and brackets
      removed, split at the commas; no identifier keeps a quote, a bracket or a comma. */
  function FormatSubjects(s: string): (r: seq<string>)
    ensures forall k :: 0 <= k < |r| ==>
      '"' !in r[k] && '[' !in r[k] && ']' !in r[k] && ',' !in r[k] && Within(r[k], s)
  {
    var t := StripList(s);
    var r := Split(t, ',');
    assert forall k :: 0 <= k < |r| ==> Within(r[k], t);
    r
  }

  /** Joining the identifiers back with commas gives the stripped text without its trailing
      commas: the split loses nothing else. */
  lemma FormatSubjectsJoin(s: string)
    ensures Join(FormatSubjects(s), ",") == TrimTrailing(StripList(s), ',')
  {
    SplitJoin(StripList(s), ',');
  }

  /** An empty array gives one empty identifier, not none: splitting the empty text yields the
      empty text itself. */
  lemma FormatSubjectsOfEmptyArray()
    ensures FormatSubjects("[]") == [""]
  {
    assert Remove("[]", '"') == "[]" by { RemoveAbsent("[]", '"'); }
    assert Remove("[]", '[') == "]" by {
      assert "[]"[1..] == "]";
      assert Remove("]", '[') == "]" by { RemoveAbsent("]", '['); }
    }
    assert Remove("]", ']') == "" by { assert "]"[1..] == ""; }
  }

  // ---------------------------------------------------------------------------------------------
  // Serialised subject lists

  /** The JSON text of an array of strings, as the store's group lists come back: each
      identifier in double quotes, separated by commas, inside brackets. No character is
      escaped, so this is the JSON writer's text only for identifiers that need no escape
      (see `Unescaped`). */
  function JsonList(ids: seq<string>): string
  {
    "[" + Join(Quoted(ids), ",") + "]"
  }

  function Quoted(ids: seq<string>): (q: seq<string>)
    ensures |q| == |ids|
    ensures forall i :: 0 <= i < |ids| ==> q[i] == "\"" + ids[i] + "\""
  {
    seq(|ids|, i requires 0 <= i < |ids| => "\"" + ids[i] + "\"")
  }

  lemma {:induction false} RemoveAppend(a: string, b: string, c: char)
    ensures Remove(a + b, c) == Remove(a, c) + Remove(b, c)
    decreases |a|
  {
    if a != [] {
      assert (a + b)[0] == a[0];
      assert (a + b)[1..] == a[1..] + b;
      RemoveAppend(a[1..], b, c);
    } else {
      assert a + b == b;
    }
  }

  /** An identifier that needs no escaping: no quote, bracket or comma in it. */
  ghost predicate Plain(id: string)
  {
    '"' !in id && '[' !in id && ']' !in id && ',' !in id
  }

  /** An identifier the JSON writer renders verbatim between its quotes: plain, and without
      a backslash, a control character, U+2028 or U+2029, which the writer escapes. */
  ghost predicate Unescaped(id: string)
  {
    Plain(id) && '\\' !in id && '\U{2028}' !in id && '\U{2029}' !in id
    && forall k :: 0 <= k < |id| ==> id[k] >= ' '
  }

  lemma RemoveQuotesOfQuoted(id: string)
    requires '"' !in id
    ensures Remove("\"" + id + "\"", '"') == id
  {
    RemoveAppend("\"" + id, "\"", '"');
    RemoveAppend("\"", id, '"');
    RemoveAbsent(id, '"');
    assert Remove("\"", '"') == "" by { assert "\""[1..] == ""; }
  }

  lemma {:induction false} RemoveQuotesOfJoin(ids: seq<string>)
    requires forall i :: 0 <= i < |ids| ==> Plain(ids[i])
    ensures Remove(Join(Quoted(ids), ","), '"') == Join(ids, ",")
    decreases |ids|
  {
    if |ids| == 1 {
      RemoveQuotesOfQuoted(ids[0]);
    } else if |ids| > 1 {
      var q := Quoted(ids);
      assert q[1..] == Quoted(ids[1..]);
      RemoveQuotesOfJoin(ids[1..]);
      RemoveAppend(q[0] + ",", Join(q[1..], ","), '"');
      RemoveAppend(q[0], ",", '"');
      RemoveQuotesOfQuoted(ids[0]);
      RemoveAbsent(",", '"');
    }
  }

  lemma {:induction false} JoinAvoids(ids: seq<string>, c: char)
    requires c != ',' && forall i :: 0 <= i < |ids| ==> c !in ids[i]
    ensures c !in Join(ids, ",")
    decreases |ids|
  {
    if |ids| > 1 {
      JoinAvoids(ids[1..], c);
    }
  }

  /** The first separator of `a + [c] + b`, where `a` has none, is the one after `a`. */
  lemma IndexOfSeparator(a: string, c: char, b: string)
    requires c !in a
    ensures IndexOf(a + [c] + b, [c]) == |a|
  {
    var s := a + [c] + b;
    IndexOfChar(s, c);
    var i := IndexOf(s, [c]);
    assert s[|a|] == c;
    assert s[..|a|] == a;
  }

  /** Cutting a `c`-joined list of `c`-free pieces at every `c` gives the pieces back. */
  lemma {:induction false} PiecesOfJoin(ps: seq<string>, c: char)
    requires |ps| >= 1 && forall i :: 0 <= i < |ps| ==> c !in ps[i]
    ensures Pieces(Join(ps, [c]), c) == ps
    decreases |ps|
  {
    var s := Join(ps, [c]);
    if |ps| == 1 {
      IndexOfChar(s, c);
    } else {
      var rest := Join(ps[1..], [c]);
      assert s == ps[0] + [c] + rest;
      IndexOfSeparator(ps[0], c, rest);
      assert s[..|ps[0]|] == ps[0];
      assert s[|ps[0]| + 1..] == rest;
      PiecesOfJoin(ps[1..], c);
      assert ps == [ps[0]] + ps[1..];
    }
  }

  /** String.split inverts String.join for separator-free pieces, the last of them non-empty. */
  lemma SplitOfJoin(ps: seq<string>, c: char)
    requires |ps| >= 1 && ps[|ps| - 1] != ""
    requires forall i :: 0 <= i < |ps| ==> c !in ps[i]
    ensures Split(Join(ps, [c]), c) == ps
  {
    var s := Join(ps, [c]);
    if c in s {
      PiecesOfJoin(ps, c);
    }
  }

  lemma RemoveQuotesOfJsonList(ids: seq<string>)
    requires forall i :: 0 <= i < |ids| ==> Plain(ids[i])
    ensures RemoveQuotes(JsonList(ids)) == "[" + Join(ids, ",") + "]"
  {
    var j := Join(Quoted(ids), ",");
    RemoveQuotesOfJoin(ids);
    RemoveAppend("[" + j, "]", '"');
    RemoveAppend("[", j, '"');
    RemoveAbsent("[", '"');
    RemoveAbsent("]", '"');
  }

  lemma RemoveLeading(c: char, t: string)
    ensures Remove([c] + t, c) == Remove(t, c)
  {
    assert ([c] + t)[1..] == t;
  }

  lemma RemoveBrackets(t: string)
    requires '[' !in t && ']' !in t
    ensures Remove(Remove("[" + t + "]", '['), ']') == t
  {
    assert "[" + t + "]" == ['['] + (t + "]");
    RemoveLeading('[', t + "]");
    RemoveAbsent(t + "]", '[');
    RemoveAppend(t, "]", ']');
    RemoveAbsent(t, ']');
    RemoveLeading(']', "");
  }

  lemma StripJsonList(ids: seq<string>)
    requires forall i :: 0 <= i < |ids| ==> Plain(ids[i])
    ensures StripList(JsonList(ids)) == Join(ids, ",")
  {
    RemoveQuotesOfJsonList(ids);
    JoinAvoids(ids, '[');
    JoinAvoids(ids, ']');
    RemoveBrackets(Join(ids, ","));
  }

  /** formatSubjects inverts the JSON serialisation of a non-empty list of identifiers that
      need no escaping, whose last one is not empty. */
  lemma FormatSubjectsOfJsonList(ids: seq<string>)
    requires |ids| >= 1 && ids[|ids| - 1] != ""
    requires forall i :: 0 <= i < |ids| ==> Unescaped(ids[i])
    ensures FormatSubjects(JsonList(ids)) == ids
  {
    StripJsonList(ids);
    SplitOfJoin(ids, ',');
  }

  // ---------------------------------------------------------------------------------------------
  // Loading the group lists

  /** The request text for one group-list query. */
  function GroupListRequest(query: string): string
  {
    "{\"query\":\"{" + query + "{group, subjects}}\"}"
  }

  /** Distinct queries send distinct requests: the query name can be read back from the request. */
  lemma GroupListRequestInjective(q1: string, q2: string)
    requires GroupListRequest(q1) == GroupListRequest(q2)
    ensures q1 == q2
  {
    var prefix := "{\"query\":\"{";
    var suffix := "{group, subjects}}\"}";
    var r1, r2 := GroupListRequest(q1), GroupListRequest(q2);
    assert |q1| == |q2|;
    assert r1[|prefix|..|prefix| + |q1|] == q1;
    assert r2[|prefix|..|prefix| + |q2|] == q2;
  }

  /** One element of a group-list query's result array: `NotAnObject` when it is not a JSON
      object, otherwise the JSON text of its `group` and `subjects` members (None when the
      member is missing, which ends the element loop with a null-pointer exception). */
  datatype GroupListElement = NotAnObject | GroupList(group: Option<string>, subjects: Option<string>)

  /** What decoding a backend answer yields: `Unexpected` when it is not JSON, has no `data`
      object, or `data` has no array named after the query; otherwise that array. */
  datatype GroupListResponse = Unexpected | Elements(elements: seq<GroupListElement>)

  /** What reading the set-queries resource yields: `Unreadable` for an I/O or YAML error,
      `NoQueriesEntry` when the document has no `queries` list, otherwise its query names. */
  datatype QueriesResource = Unreadable | NoQueriesEntry | Queries(names: seq<string>)

  /** One group written to the store: its name and its members, in the order given. */
  datatype Write = Write(group: string, members: seq<string>)

  ghost predicate WellFormed(e: GroupListElement)
  {
    e.GroupList? && e.group.Some? && e.subjects.Some?
  }

  /** The writes the element loop makes: one per element, in order, up to the first malformed
      element, whose exception ends the loop. */
  function Writes(es: seq<GroupListElement>): (ws: seq<Write>)
    ensures |ws| <= |es|
    ensures forall i :: 0 <= i < |ws| ==>
      WellFormed(es[i]) && ws[i] == Write(RemoveQuotes(es[i].group.value), FormatSubjects(es[i].subjects.value))
    ensures |ws| < |es| ==> !WellFormed(es[|ws|])
    decreases |es|
  {
    if es == [] then []
    else
      match es[0]
      case GroupList(Some(g), Some(s)) =>
        var rest := Writes(es[1..]);
        [Write(RemoveQuotes(g), FormatSubjects(s))] + rest
      case _ => []
  }

  /** The writes one query makes: none when the backend throws or its answer has the wrong shape. */
  function LoadQuery(answer: string -> BackendResult, decode: (string, string) -> GroupListResponse,
                     query: string): seq<Write>
  {
    match answer(GroupListRequest(query))
    case Failed(_) => []
    case Answer(text) =>
      match decode(text, query)
      case Unexpected => []
      case Elements(es) => Writes(es)
  }

  /** The writes of all the queries, query by query. */
  function LoadQueries(answer: string -> BackendResult, decode: (string, string) -> GroupListResponse,
                       queries: seq<string>): seq<Write>
    decreases |queries|
  {
    if queries == [] then [] else LoadQuery(answer, decode, queries[0]) + LoadQueries(answer, decode, queries[1..])
  }

  /** The requests sent for the queries, one each, in order. */
  function Requests(queries: seq<string>): (rs: seq<string>)
    ensures |rs| == |queries|
    ensures forall i :: 0 <= i < |queries| ==> rs[i] == GroupListRequest(queries[i])
  {
    seq(|queries|, i requires 0 <= i < |queries| => GroupListRequest(queries[i]))
  }

  /** The set store after the writes, each replacing the named group. */
  function Apply(sets: map<string, set<string>>, ws: seq<Write>): map<string, set<string>>
    decreases |ws|
  {
    if ws == [] then sets else Apply(sets[ws[0].group := set m | m in ws[0].members], ws[1..])
  }

  lemma {:induction false} ApplyAppend(sets: map<string, set<string>>, a: seq<Write>, b: seq<Write>)
    ensures Apply(sets, a + b) == Apply(Apply(sets, a), b)
    decreases |a|
  {
    if a == [] {
      assert a + b == b;
    } else {
      assert (a + b)[0] == a[0];
      assert (a + b)[1..] == a[1..] + b;
      ApplyAppend(sets[a[0].group := set m | m in a[0].members], a[1..], b);
    }
  }

  /** A group no write names keeps what it had. */
  lemma {:induction false} ApplyFrame(sets: map<string, set<string>>, ws: seq<Write>, name: string)
    requires forall i :: 0 <= i < |ws| ==> ws[i].group != name
    ensures Members(Apply(sets, ws), name) == Members(sets, name)
    decreases |ws|
  {
    if ws != [] {
      ApplyFrame(sets[ws[0].group := set m | m in ws[0].members], ws[1..], name);
    }
  }

  /** The last write to a group decides its members. */
  lemma {:induction false} ApplyLastWins(sets: map<string, set<string>>, ws: seq<Write>, k: nat)
    requires k < |ws| && forall i :: k < i < |ws| ==> ws[i].group != ws[k].group
    ensures Members(Apply(sets, ws), ws[k].group) == set m | m in ws[k].members
  {
    assert ws == ws[..k] + ([ws[k]] + ws[k + 1..]);
    ApplyAppend(sets, ws[..k], [ws[k]] + ws[k + 1..]);
    var s1 := Apply(sets, ws[..k]);
    assert ([ws[k]] + ws[k + 1..])[1..] == ws[k + 1..];
    ApplyFrame(s1[ws[k].group := set m | m in ws[k].members], ws[k + 1..], ws[k].group);
  }

  lemma {:induction false} LoadQueriesAppend(answer: string -> BackendResult,
                                             decode: (string, string) -> GroupListResponse,
                                             a: seq<string>, b: seq<string>)
    ensures LoadQueries(answer, decode, a + b) == LoadQueries(answer, decode, a) + LoadQueries(answer, decode, b)
    decreases |a|
  {
    if a == [] {
      assert a + b == b;
    } else {
      assert (a + b)[0] == a[0];
      assert (a + b)[1..] == a[1..] + b;
      LoadQueriesAppend(answer, decode, a[1..], b);
    }
  }

  lemma LoadQueriesSingle(answer: string -> BackendResult, decode: (string, string) -> GroupListResponse,
                          query: string)
    ensures LoadQueries(answer, decode, [query]) == LoadQuery(answer, decode, query)
  {
    assert [query][1..] == [];
    assert LoadQuery(answer, decode, query) + [] == LoadQuery(answer, decode, query);
  }

  /** A query whose backend call throws writes nothing, and the queries after it are still
      loaded: its place in the list makes no difference. */
  lemma FailedQuerySkipped(answer: string -> BackendResult, decode: (string, string) -> GroupListResponse,
                           before: seq<string>, query: string, after: seq<string>)
    requires answer(GroupListRequest(query)).Failed?
    ensures LoadQueries(answer, decode, before + [query] + after)
         == LoadQueries(answer, decode, before) + LoadQueries(answer, decode, after)
  {
    var front := before + [query];
    LoadQueriesAppend(answer, decode, front, after);
    LoadQueriesAppend(answer, decode, before, [query]);
    LoadQueriesSingle(answer, decode, query);
    var none := LoadQuery(answer, decode, query);
    assert none == [];
    var loaded := LoadQueries(answer, decode, before);
    assert loaded + none == loaded;
  }

  /** One turn of the loader's loop: the writes of query `i`, then those of the rest. */
  lemma LoadStep(sets: map<string, set<string>>, answer: string -> BackendResult,
                 decode: (string, string) -> GroupListResponse, queries: seq<string>, i: nat)
    requires i < |queries|
    ensures Apply(sets, LoadQueries(answer, decode, queries[i..]))
         == Apply(Apply(sets, LoadQuery(answer, decode, queries[i])), LoadQueries(answer, decode, queries[i + 1..]))
  {
    assert queries[i..][1..] == queries[i + 1..];
    ApplyAppend(sets, LoadQuery(answer, decode, queries[i]), LoadQueries(answer, decode, queries[i + 1..]));
  }

  lemma RequestsStep(queries: seq<string>, i: nat)
    requires i < |queries|
    ensures Requests(queries[..i + 1]) == Requests(queries[..i]) + [GroupListRequest(queries[i])]
  {
  }

  /** Every group written has a name without quotes and members without quotes, brackets or
      commas. */
  lemma {:induction false} WrittenGroupsClean(answer: string -> BackendResult,
                                              decode: (string, string) -> GroupListResponse,
                                              queries: seq<string>)
    ensures forall w :: w in LoadQueries(answer, decode, queries) ==>
      '"' !in w.group && forall x :: x in w.members ==> Plain(x)
    decreases |queries|
  {
    if queries != [] {
      WrittenGroupsClean(answer, decode, queries[1..]);
      var here := LoadQuery(answer, decode, queries[0]);
      forall w | w in here ensures '"' !in w.group && forall x :: x in w.members ==> Plain(x) {
        var i :| 0 <= i < |here| && here[i] == w;
      }
    }
  }

  // ---------------------------------------------------------------------------------------------
  // The initializer

  class ApplicationInitializer {
    const config: Config
    const neo4jService: Neo4jGraphQLService
    const redisService: RedisService
    /** The JSON decoder's reading of a backend answer to a named group-list query. */
    const decode: (string, string) -> GroupListResponse

    constructor (config: Config, neo4jService: Neo4jGraphQLService, redisService: RedisService,
                 decode: (string, string) -> GroupListResponse)
      ensures this.config == config && this.neo4jService == neo4jService
      ensures this.redisService == redisService && this.decode == decode
    {
      this.config := config;
      this.neo4jService := neo4jService;
      this.redisService := redisService;
      this.decode := decode;
    }

    /** Start-up hook: loads the group lists only when the store is initialised and set
        filtering is enabled. `ok` is false when start-up fails, which happens exactly when the
        resource is read but has no `queries` list. */
    method AfterPropertiesSet(resource: QueriesResource) returns (ok: bool)
      modifies redisService`sets, neo4jService`requests
      ensures var load := redisService.initialized && config.redisSetsEnabled;
        && (ok <==> !(load && resource.NoQueriesEntry?))
        && (load && resource.Queries? ==>
              && redisService.sets == Apply(old(redisService.sets),
                                            LoadQueries(neo4jService.answer, decode, resource.names))
              && neo4jService.requests == old(neo4jService.requests) + Requests(resource.names))
        && (!(load && resource.Queries?) ==>
              redisService.sets == old(redisService.sets) && neo4jService.requests == old(neo4jService.requests))
    {
      ok := true;
      if redisService.initialized && config.redisSetsEnabled {
        ok := InitGroupListsInCache(resource);
      }
    }

    /** initGroupListsInCache: every query of the resource sent in turn, each group of its
        answer cached; a failing query is logged and skipped. `ok` is false when the missing
        `queries` list makes the loop throw. */
    method InitGroupListsInCache(resource: QueriesResource) returns (ok: bool)
      modifies redisService`sets, neo4jService`requests
      ensures ok <==> !resource.NoQueriesEntry?
      ensures resource.Queries? ==>
        && redisService.sets == Apply(old(redisService.sets), LoadQueries(neo4jService.answer, decode, resource.names))
        && neo4jService.requests == old(neo4jService.requests) + Requests(resource.names)
      ensures !resource.Queries? ==>
        redisService.sets == old(redisService.sets) && neo4jService.requests == old(neo4jService.requests)
    {
      match resource {
        case Unreadable =>
          return true;
        case NoQueriesEntry =>
          return false;
        case Queries(queries) =>
          ghost var target := Apply(redisService.sets, LoadQueries(neo4jService.answer, decode, queries));
          ghost var requests0 := neo4jService.requests;
          var i := 0;
          assert queries[i..] == queries;
          while i < |queries|
            invariant 0 <= i <= |queries|
            invariant Apply(redisService.sets, LoadQueries(neo4jService.answer, decode, queries[i..])) == target
            invariant neo4jService.requests == requests0 + Requests(queries[..i])
          {
            LoadStep(redisService.sets, neo4jService.answer, decode, queries, i);
            RequestsStep(queries, i);
            LoadGroupLists(queries[i]);
            i := i + 1;
          }
          assert queries[..i] == queries;
          return true;
      }
    }

    /** One query of the loader: its request sent, then the groups of its answer cached as
        LoadQuery says. A backend error or an answer of the wrong shape is absorbed. */
    method LoadGroupLists(query: string)
      modifies redisService`sets, neo4jService`requests
      ensures redisService.sets == Apply(old(redisService.sets), LoadQuery(neo4jService.answer, decode, query))
      ensures neo4jService.requests == old(neo4jService.requests) + [GroupListRequest(query)]
    {
      var result := neo4jService.Query(GroupListRequest(query));
      if result.Answer? {
        var decoded := decode(result.text, query);
        if decoded.Elements? {
          CacheGroupLists(decoded.elements);
        }
      }
    }

    /** The element loop: each group cached in turn until the first malformed element. */
    method CacheGroupLists(es: seq<GroupListElement>)
      modifies redisService`sets
      ensures redisService.sets == Apply(old(redisService.sets), Writes(es))
    {
      ghost var target := Apply(redisService.sets, Writes(es));
      var j := 0;
      assert es[j..] == es;
      while j < |es|
        invariant 0 <= j <= |es|
        invariant Apply(redisService.sets, Writes(es[j..])) == target
      {
        assert es[j..][1..] == es[j + 1..];
        match es[j] {
          case GroupList(Some(groupText), Some(subjectsText)) =>
            var group := RemoveQuotes(groupText);
            var subjects := FormatSubjects(subjectsText);
            redisService.CacheGroup(group, subjects);
          case _ =>
            return;
        }
        j := j + 1;
      }
    }
  }
}
