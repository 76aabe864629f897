/** The GraphQL gateway controller: the request gate in front of the backend (classification,
    cache key, query/mutation policy, read-through response cache), the set-filter endpoint that
    intersects per-category unions of group lists, and two string helpers. */
module Controller {
  import opened JavaText
  import opened Services

  const BadRequest := 400
  const Forbidden := 403

  // ---------------------------------------------------------------------------------------------
  // Request gate

  /** A request body whose `query` member parsed: the parsed document's own text (its canonical
      form), the serialised `variables` member when the body has one, and the lower-cased kind
      of the first definition. */
  datatype Document = Document(canonical: string, variables: Option<string>, operation: string)

  /** What decoding and parsing a request body yields. `Undecodable`: an exception before the
      handler's guarded block, that is, no body at all, or a body the JSON decoder throws on
      (malformed JSON, or JSON that is not an object). `Invalid`: anything inside the guarded
      block throws (no `query` member, a parse error, no definition, a first definition that is
      not an operation); `diagnostic` is the exception's message. An empty or whitespace-only
      body decodes to null without throwing, and the member lookup then throws inside the
      guarded block: it is `Invalid`. */
  datatype ParsedBody = Undecodable | Invalid(diagnostic: string) | Parsed(doc: Document)

  /** What the handler answers. `Uncaught`: an exception leaves the handler and the web
      framework answers in its place. */
  datatype Response =
    | Ok(body: string)
    | Error(status: int, message: string, errors: seq<string>)
    | Uncaught

  datatype Verdict = Permitted | Disabled | Unrecognized

  /** The operation policy: a query or a mutation is served when its flag allows it, refused as
      disabled otherwise; every other operation kind is unrecognized. */
  function Policy(operation: string, config: Config): Verdict
  {
    if (operation == "query" && config.allowGraphQLQuery)
      || (operation == "mutation" && config.allowGraphQLMutation) then Permitted
    else if operation == "query" || operation == "mutation" then Disabled
    else Unrecognized
  }

  /** The response-cache key: the canonical document text alone, or followed by `::` and the
      serialised variables when the body carries a `variables` member. */
  function CacheKey(doc: Document): string
  {
    match doc.variables
    case None => doc.canonical
    case Some(v) => doc.canonical + "::" + v
  }

  /** One request's effect: the response, the cache afterwards and the request texts sent to
      the backend. */
  datatype Exchange = Exchange(response: Response, cache: map<string, string>, sent: seq<string>)

  function BackendError(e: ApiError): Response
  {
    Error(e.status, e.message, e.errors)
  }

  /** The gateway's answer to one request body `raw` whose parse is `body`, against the cache
      `cache` and a backend answering `answer`. */
  function Respond(config: Config, cache: map<string, string>, answer: string -> BackendResult,
                   raw: string, body: ParsedBody): (e: Exchange)
    ensures e.sent == [] || e.sent == [raw]
    ensures e.response.Ok? ==> body.Parsed? && Policy(body.doc.operation, config) == Permitted
    ensures e.cache != cache ==>
      && config.redisEnabled && body.Parsed? && e.response.Ok?
      && e.sent == [raw]
      && e.cache == cache[CacheKey(body.doc) := e.response.body]
  {
    match body
    case Undecodable => Exchange(Uncaught, cache, [])
    case Invalid(diagnostic) =>
      Exchange(Error(BadRequest, "Invalid query in request", [diagnostic]), cache, [])
    case Parsed(doc) =>
      var op := doc.operation;
      match Policy(op, config)
      case Disabled =>
        Exchange(Error(Forbidden, "Request type has been disabled",
                       [op + " operations have been disabled in the application configuration."]), cache, [])
      case Unrecognized =>
        Exchange(Error(BadRequest, "Unknown operation in request", [op + " operation is not recognized."]), cache, [])
      case Permitted =>
        var key := CacheKey(doc);
        if config.redisEnabled && key in cache then Exchange(Ok(cache[key]), cache, [])
        else
          match answer(raw)
          case Failed(err) => Exchange(BackendError(err), cache, [raw])
          case Answer(text) =>
            Exchange(Ok(text), if config.redisEnabled then cache[key := text] else cache, [raw])
  }

  /** The separator appears exactly when a `variables` member is present, whatever its text. */
  lemma CacheKeyMarksVariables(doc: Document)
    ensures doc.variables.None? ==> CacheKey(doc) == doc.canonical
    ensures doc.variables.Some? ==>
      && |CacheKey(doc)| == |doc.canonical| + 2 + |doc.variables.value|
      && CacheKey(doc)[..|doc.canonical|] == doc.canonical
      && CacheKey(doc)[|doc.canonical|..|doc.canonical| + 2] == "::"
      && CacheKey(doc)[|doc.canonical| + 2..] == doc.variables.value
  {
  }

  /** For one canonical text the key tells the variables apart, absent ones included. */
  lemma CacheKeyDeterminesVariables(canonical: string, operation: string, v1: Option<string>, v2: Option<string>)
    requires CacheKey(Document(canonical, v1, operation)) == CacheKey(Document(canonical, v2, operation))
    ensures v1 == v2
  {
    var k1 := CacheKey(Document(canonical, v1, operation));
    var k2 := CacheKey(Document(canonical, v2, operation));
    if v1.Some? && v2.Some? {
      assert k1[|canonical| + 2..] == v1.value;
      assert k2[|canonical| + 2..] == v2.value;
    }
  }

  /** The key is not injective across canonical texts: a document whose text holds `::` and
      one carrying variables can share a key. */
  lemma CacheKeyCollision()
    ensures CacheKey(Document("a::b", None, "query")) == CacheKey(Document("a", Some("b"), "query"))
  {
  }

  /** A body that does not parse is answered 400 without touching the cache or the backend. */
  lemma InvalidQueryRejected(config: Config, cache: map<string, string>, answer: string -> BackendResult,
                             raw: string, diagnostic: string)
    ensures Respond(config, cache, answer, raw, Invalid(diagnostic))
         == Exchange(Error(BadRequest, "Invalid query in request", [diagnostic]), cache, [])
  {
  }

  /** A query is served (answered from the cache, or sent to the backend whatever it answers)
      exactly when queries are allowed, and a mutation exactly when mutations are; a disabled
      one is refused with 403 and touches neither the cache nor the backend. */
  lemma PolicyDecidesService(config: Config, cache: map<string, string>, answer: string -> BackendResult,
                             raw: string, doc: Document)
    requires doc.operation == "query" || doc.operation == "mutation"
    ensures var e := Respond(config, cache, answer, raw, Parsed(doc));
      (e.response.Ok? || e.sent == [raw])
        <==> (if doc.operation == "query" then config.allowGraphQLQuery else config.allowGraphQLMutation)
    ensures var e := Respond(config, cache, answer, raw, Parsed(doc));
      !(if doc.operation == "query" then config.allowGraphQLQuery else config.allowGraphQLMutation) ==>
        e.response.Error? && e.response.status == Forbidden && e.cache == cache && e.sent == []
  {
  }

  /** An operation that is not permitted gets the same answer from every cache and every
      backend, and neither is touched: the policy is applied before the cache lookup. */
  lemma RefusalIgnoresCacheAndBackend(config: Config, cache1: map<string, string>, cache2: map<string, string>,
                                      answer1: string -> BackendResult, answer2: string -> BackendResult,
                                      raw: string, doc: Document)
    requires Policy(doc.operation, config) != Permitted
    ensures var e1 := Respond(config, cache1, answer1, raw, Parsed(doc));
            var e2 := Respond(config, cache2, answer2, raw, Parsed(doc));
      && e1.response == e2.response && e1.response.Error?
      && e1.response.status == (if doc.operation == "query" || doc.operation == "mutation" then Forbidden else BadRequest)
      && e1.cache == cache1 && e1.sent == []
  {
  }

  /** With caching on, a cached text is returned unchanged and the backend is not called. */
  lemma CacheHitServesCachedText(config: Config, cache: map<string, string>, answer: string -> BackendResult,
                                 raw: string, doc: Document)
    requires config.redisEnabled && Policy(doc.operation, config) == Permitted
    requires CacheKey(doc) in cache
    ensures Respond(config, cache, answer, raw, Parsed(doc)) == Exchange(Ok(cache[CacheKey(doc)]), cache, [])
  {
  }

  /** With caching on, a miss sends the raw body to the backend, stores its answer under the key
      and returns it; a backend error is passed on and nothing is stored. */
  lemma CacheMissReadsThrough(config: Config, cache: map<string, string>, answer: string -> BackendResult,
                              raw: string, doc: Document)
    requires config.redisEnabled && Policy(doc.operation, config) == Permitted
    requires CacheKey(doc) !in cache
    ensures var e := Respond(config, cache, answer, raw, Parsed(doc));
      && e.sent == [raw]
      && (answer(raw).Answer? ==> e.response == Ok(answer(raw).text) && e.cache == cache[CacheKey(doc) := answer(raw).text]
                                  && e.cache[CacheKey(doc)] == answer(raw).text)
      && (answer(raw).Failed? ==> e.response == BackendError(answer(raw).error) && e.cache == cache)
  {
  }

  /** With caching off, every permitted request goes to the backend and the cache stays as it is. */
  lemma CacheDisabledPassesThrough(config: Config, cache: map<string, string>, answer: string -> BackendResult,
                                   raw: string, doc: Document)
    requires !config.redisEnabled && Policy(doc.operation, config) == Permitted
    ensures var e := Respond(config, cache, answer, raw, Parsed(doc));
      && e.sent == [raw] && e.cache == cache
      && e.response == (match answer(raw) case Answer(t) => Ok(t) case Failed(err) => BackendError(err))
  {
  }

  /** Read-through: once a request has been served with caching on, every request with the same
      key (whatever its raw text) is served the same text from the cache, without a backend call. */
  lemma {:induction false} RepeatServedFromCache(config: Config, cache: map<string, string>,
                                                 answer: string -> BackendResult, raw1: string, raw2: string,
                                                 doc1: Document, doc2: Document)
    requires config.redisEnabled && doc1.operation == doc2.operation && CacheKey(doc1) == CacheKey(doc2)
    requires Respond(config, cache, answer, raw1, Parsed(doc1)).response.Ok?
    ensures var e1 := Respond(config, cache, answer, raw1, Parsed(doc1));
            var e2 := Respond(config, e1.cache, answer, raw2, Parsed(doc2));
      e2 == Exchange(e1.response, e1.cache, [])
  {
    var e1 := Respond(config, cache, answer, raw1, Parsed(doc1));
    assert CacheKey(doc1) in e1.cache && e1.cache[CacheKey(doc1)] == e1.response.body;
  }

  // ---------------------------------------------------------------------------------------------
  // Set filter

  /** What the JSON decoder makes of one category's member in a set-filter body. A category
      whose member is missing or JSON null is absent from the decoded map. */
  datatype Selection = Values(vals: seq<string>) | NotAList

  /** A decoded set-filter body: None when the JSON decoder throws on the body (malformed JSON,
      or JSON that is not an object); that exception is not the one the endpoint catches. No
      body, an empty body or a whitespace-only one decodes to null; every category's member
      lookup then throws the caught null-pointer exception, which `Some(map[])` gives as well. */
  type FilterBody = Option<map<string, Selection>>

  const UnionSuffix := "Union"
  const IdSeparator := "\",\""

  /** The group names `category:value` for the selected values, in order. */
  function Qualified(category: string, vals: seq<string>): seq<string>
  {
    seq(|vals|, i requires 0 <= i < |vals| => category + ":" + vals[i])
  }

  /** What storeUnion does for one category: skip it (the null-pointer exception the endpoint
      catches), store the union of its groups under `key`, or throw past the endpoint. */
  datatype UnionStep = Skip | Store(key: string, names: seq<string>) | Throw

  function StepFor(category: string, body: FilterBody): UnionStep
  {
    match body
    case None => Throw
    case Some(m) =>
      if category !in m then Skip
      else
        match m[category]
        case NotAList => Throw
        case Values(vs) => Store(category + UnionSuffix, Qualified(category, vs))
  }

  /** The union keys collected, the set store afterwards, and whether an exception escaped. */
  datatype Unions = Unions(keys: seq<string>, sets: map<string, set<string>>, failed: bool)

  /** One more category of the endpoint's loop: nothing happens once an exception has escaped. */
  function Advance(u: Unions, category: string, body: FilterBody): Unions
  {
    if u.failed then u
    else
      match StepFor(category, body)
      case Skip => u
      case Throw => Unions(u.keys, u.sets, true)
      case Store(key, names) => Unions(u.keys + [key], u.sets[key := UnionOf(u.sets, names)], false)
  }

  /** The endpoint's loop over the store's categories, in order, stopping at an escaping exception. */
  function StoreUnions(sets: map<string, set<string>>, categories: seq<string>, body: FilterBody): Unions
    decreases |categories|
  {
    if categories == [] then Unions([], sets, false)
    else Advance(StoreUnions(sets, categories[..|categories| - 1], body), categories[|categories| - 1], body)
  }

  /** Once an exception has escaped, later categories change nothing. */
  lemma {:induction false} FailureIsFinal(sets: map<string, set<string>>, categories: seq<string>, n: nat, body: FilterBody)
    requires n <= |categories| && StoreUnions(sets, categories[..n], body).failed
    ensures StoreUnions(sets, categories, body) == StoreUnions(sets, categories[..n], body)
    decreases |categories| - n
  {
    if n < |categories| {
      assert categories[..n + 1][..n] == categories[..n];
      FailureIsFinal(sets, categories, n + 1, body);
    } else {
      assert categories[..n] == categories;
    }
  }

  /** An exception escapes exactly when some category the store knows would throw: the decoder
      throws on the body, or that category's member is not a list. So a store with no category
      never fails. Categories absent from the body are skipped. */
  lemma {:induction false} FailsIff(sets: map<string, set<string>>, categories: seq<string>, body: FilterBody)
    ensures StoreUnions(sets, categories, body).failed <==> exists c :: c in categories && StepFor(c, body).Throw?
    decreases |categories|
  {
    if categories != [] {
      var init := categories[..|categories| - 1];
      var last := categories[|categories| - 1];
      FailsIff(sets, init, body);
      assert categories == init + [last];
      assert forall c :: c in categories <==> c in init || c == last;
      var u := StoreUnions(sets, init, body);
      if !u.failed {
        assert StoreUnions(sets, categories, body).failed <==> StepFor(last, body).Throw?;
      }
    }
  }

  /** Without an escaping exception, the keys collected are `category + "Union"` for exactly
      the store's categories that the body selects. */
  lemma {:induction false} UnionKeysOfSelected(sets: map<string, set<string>>, categories: seq<string>,
                                               m: map<string, Selection>)
    requires !StoreUnions(sets, categories, Some(m)).failed
    ensures forall k :: k in StoreUnions(sets, categories, Some(m)).keys <==>
      exists c :: c in categories && c in m && k == c + UnionSuffix
    decreases |categories|
  {
    if categories != [] {
      var init := categories[..|categories| - 1];
      var last := categories[|categories| - 1];
      assert categories == init + [last];
      var u := StoreUnions(sets, init, Some(m));
      var keys := StoreUnions(sets, categories, Some(m)).keys;
      assert !u.failed;
      UnionKeysOfSelected(sets, init, m);
      assert keys == if last in m then u.keys + [last + UnionSuffix] else u.keys;
      forall k ensures k in keys <==> exists c :: c in categories && c in m && k == c + UnionSuffix {
        if k in keys {
          if k in u.keys {
            var c :| c in init && c in m && k == c + UnionSuffix;
            assert c in categories;
          } else {
            assert last in categories;
          }
        }
        if exists c :: c in categories && c in m && k == c + UnionSuffix {
          var c :| c in categories && c in m && k == c + UnionSuffix;
          if c != last {
            assert c in init;
          }
        }
      }
    }
  }

  /** No union key written for a category of the store is also a group name some selected
      value refers to. */
  ghost predicate NoClash(categories: seq<string>, m: map<string, Selection>)
  {
    forall c, d, j :: c in categories && d in categories && d in m && m[d].Values? && 0 <= j < |m[d].vals|
      ==> c + UnionSuffix != d + ":" + m[d].vals[j]
  }

  lemma UnionOfSameMembers(s1: map<string, set<string>>, s2: map<string, set<string>>, names: seq<string>)
    requires forall i :: 0 <= i < |names| ==> Members(s1, names[i]) == Members(s2, names[i])
    ensures UnionOf(s1, names) == UnionOf(s2, names)
  {
    assert forall x :: x in UnionOf(s1, names) <==> x in UnionOf(s2, names);
  }

  /** The loop only writes union keys. */
  lemma {:induction false} StoreUnionsFrame(sets: map<string, set<string>>, categories: seq<string>,
                                            body: FilterBody, name: string)
    requires forall c :: c in categories ==> name != c + UnionSuffix
    ensures Members(StoreUnions(sets, categories, body).sets, name) == Members(sets, name)
    decreases |categories|
  {
    if categories != [] {
      var init := categories[..|categories| - 1];
      assert forall c :: c in init ==> c in categories;
      StoreUnionsFrame(sets, init, body, name);
    }
  }

  /** Without clashes, each selected category's union key holds the union of that category's
      groups as they were before the request. */
  lemma {:induction false} UnionOfSelected(sets: map<string, set<string>>, categories: seq<string>,
                                           m: map<string, Selection>, c: string)
    requires !StoreUnions(sets, categories, Some(m)).failed && NoClash(categories, m)
    requires c in categories && c in m
    ensures m[c].Values?
    ensures Members(StoreUnions(sets, categories, Some(m)).sets, c + UnionSuffix)
         == UnionOf(sets, Qualified(c, m[c].vals))
    decreases |categories|
  {
    FailsIff(sets, categories, Some(m));
    var init := categories[..|categories| - 1];
    var last := categories[|categories| - 1];
    assert categories == init + [last];
    var u := StoreUnions(sets, init, Some(m));
    if last == c {
      var names := Qualified(c, m[c].vals);
      forall i | 0 <= i < |names| ensures Members(u.sets, names[i]) == Members(sets, names[i]) {
        forall c' | c' in init ensures names[i] != c' + UnionSuffix {
          assert c' in categories;
        }
        StoreUnionsFrame(sets, init, Some(m), names[i]);
      }
      UnionOfSameMembers(u.sets, sets, names);
    } else {
      assert c in init;
      assert NoClash(init, m);
      UnionOfSelected(sets, init, m, c);
      if last in m {
        assert last + UnionSuffix != c + UnionSuffix by {
          assert (last + UnionSuffix)[..|last + UnionSuffix| - 5] == last;
          assert (c + UnionSuffix)[..|c + UnionSuffix| - 5] == c;
        }
      }
    }
  }

  /** The filter's meaning: an identifier survives exactly when, for every category the store
      knows and the body selects, it belongs to some group `category:value` of a selected value. */
  lemma FilterMeaning(sets: map<string, set<string>>, categories: seq<string>, m: map<string, Selection>, x: string)
    requires !StoreUnions(sets, categories, Some(m)).failed && NoClash(categories, m)
    requires |StoreUnions(sets, categories, Some(m)).keys| > 0
    ensures var u := StoreUnions(sets, categories, Some(m));
      x in Intersect(u.sets, u.keys) <==>
        forall c :: c in categories && c in m ==>
          m[c].Values? && exists j :: 0 <= j < |m[c].vals| && x in Members(sets, c + ":" + m[c].vals[j])
  {
    var u := StoreUnions(sets, categories, Some(m));
    UnionKeysOfSelected(sets, categories, m);
    forall c | c in categories && c in m
      ensures m[c].Values?
      ensures x in Members(u.sets, c + UnionSuffix) <==>
        exists j :: 0 <= j < |m[c].vals| && x in Members(sets, c + ":" + m[c].vals[j])
    {
      UnionOfSelected(sets, categories, m, c);
      var names := Qualified(c, m[c].vals);
      if x in UnionOf(sets, names) {
        var j :| 0 <= j < |names| && x in Members(sets, names[j]);
        assert x in Members(sets, c + ":" + m[c].vals[j]);
      }
      if exists j :: 0 <= j < |m[c].vals| && x in Members(sets, c + ":" + m[c].vals[j]) {
        var j :| 0 <= j < |m[c].vals| && x in Members(sets, c + ":" + m[c].vals[j]);
        assert names[j] == c + ":" + m[c].vals[j];
      }
    }
    if x in Intersect(u.sets, u.keys) {
      forall c | c in categories && c in m
        ensures x in Members(u.sets, c + UnionSuffix)
      {
        assert c + UnionSuffix in u.keys;
        var i :| 0 <= i < |u.keys| && u.keys[i] == c + UnionSuffix;
      }
    }
  }

  /** A category the store knows and the body selects, none of whose groups `category:value`
      holds anything (no such group is stored, say), still contributes an empty union key, so
      the whole result is empty. */
  lemma UnmatchedCategoryEmptiesResult(sets: map<string, set<string>>, categories: seq<string>,
                                       m: map<string, Selection>, c: string)
    requires !StoreUnions(sets, categories, Some(m)).failed && NoClash(categories, m)
    requires c in categories && c in m && m[c].Values?
    requires forall j :: 0 <= j < |m[c].vals| ==> Members(sets, c + ":" + m[c].vals[j]) == {}
    ensures var u := StoreUnions(sets, categories, Some(m));
      |u.keys| > 0 && Intersect(u.sets, u.keys) == {}
  {
    var u := StoreUnions(sets, categories, Some(m));
    UnionKeysOfSelected(sets, categories, m);
    assert c + UnionSuffix in u.keys;
    forall x ensures x !in Intersect(u.sets, u.keys) {
      FilterMeaning(sets, categories, m, x);
    }
  }

  /** The categories come from the store: whatever the body says about a category the store
      does not know changes nothing. */
  lemma {:induction false} UnknownCategoryIgnored(sets: map<string, set<string>>, categories: seq<string>,
                                                  m: map<string, Selection>, c: string, sel: Selection)
    requires c !in categories
    ensures StoreUnions(sets, categories, Some(m[c := sel])) == StoreUnions(sets, categories, Some(m))
    decreases |categories|
  {
    if categories != [] {
      var init := categories[..|categories| - 1];
      var last := categories[|categories| - 1];
      assert c != last;
      assert forall d :: d in init ==> d in categories;
      UnknownCategoryIgnored(sets, init, m, c, sel);
      assert StepFor(last, Some(m[c := sel])) == StepFor(last, Some(m));
    }
  }

  /** A body naming no category of the store leaves the store as it was and collects no key. */
  lemma {:induction false} NothingSelected(sets: map<string, set<string>>, categories: seq<string>,
                                           m: map<string, Selection>)
    requires forall c :: c in categories ==> c !in m
    ensures StoreUnions(sets, categories, Some(m)) == Unions([], sets, false)
    decreases |categories|
  {
    if categories != [] {
      var init := categories[..|categories| - 1];
      assert forall d :: d in init ==> d in categories;
      NothingSelected(sets, init, m);
    }
  }

  /** `ids` lists the members of `s`, each once. */
  ghost predicate Enumerates(ids: seq<string>, s: set<string>)
  {
    && (forall x :: x in ids <==> x in s)
    && (forall i, j :: 0 <= i < j < |ids| ==> ids[i] != ids[j])
  }

  /** storeUnion's loop, which rewrites each selected value `v` into `category:v` in place. */
  method QualifyValues(category: string, list: seq<string>) returns (values: seq<string>)
    ensures |values| == |list|
    ensures forall i :: 0 <= i < |list| ==> values[i] == category + ":" + list[i]
  {
    var a := new string[|list|](i requires 0 <= i < |list| => list[i]);
    for i := 0 to a.Length
      invariant forall k :: 0 <= k < i ==> a[k] == category + ":" + list[k]
      invariant forall k :: i <= k < a.Length ==> a[k] == list[k]
    {
      a[i] := category + ":" + a[i];
    }
    values := a[..];
  }

  // ---------------------------------------------------------------------------------------------
  // Group-list query rewriting and query-name matching

  /** `filters` followed by the contents found in what is left, or None when the rest throws. */
  function Prepend(filters: seq<string>, rest: Option<seq<string>>): Option<seq<string>>
  {
    match rest
    case None => None
    case Some(fs) => Some(filters + fs)
  }

  /** The texts inside successive `[`...`]` pairs, as the extraction loop finds them: the first
      `[` and the first `]` of what is left, repeatedly. None when the loop throws: a `[` is left
      and the first `]` of what is left does not come after it (or there is none). */
  function BracketContents(call: string): Option<seq<string>>
    decreases |call|
  {
    var open := IndexOf(call, "[");
    if open == -1 then Some([])
    else
      var close := IndexOf(call, "]");
      if close < open + 1 then None
      else Prepend([call[open + 1..close]], BracketContents(call[close + 1..]))
  }

  /** No extracted filter contains `]`. */
  lemma {:induction false} BracketContentsClean(call: string)
    ensures var r := BracketContents(call);
      r.Some? ==> forall k :: 0 <= k < |r.value| ==> ']' !in r.value[k]
    decreases |call|
  {
    var open := IndexOf(call, "[");
    if open != -1 {
      var close := IndexOf(call, "]");
      if close >= open + 1 {
        IndexOfChar(call, ']');
        assert ']' !in call[open + 1..close] by {
          assert call[open + 1..close] == call[..close][open + 1..];
        }
        BracketContentsClean(call[close + 1..]);
      }
    }
  }

  /** A call made of bracket-free gaps, each followed by a bracketed value, then a tail. */
  function Bracketed(gaps: seq<string>, vals: seq<string>, tail: string): string
    requires |gaps| == |vals|
  {
    if vals == [] then tail else gaps[0] + "[" + vals[0] + "]" + Bracketed(gaps[1..], vals[1..], tail)
  }

  lemma FirstIndex(s: string, c: char, i: nat)
    requires i < |s| && s[i] == c && c !in s[..i]
    ensures IndexOf(s, [c]) == i
  {
    IndexOfChar(s, c);
  }

  /** Where the first bracket pair of `g[v]rest` lies, for a bracket-free `g` and a `v` without `]`. */
  lemma BracketedHead(g: string, v: string, rest: string)
    requires '[' !in g && ']' !in g && ']' !in v
    ensures var s := g + "[" + v + "]" + rest;
      && IndexOf(s, "[") == |g|
      && IndexOf(s, "]") == |g| + 1 + |v|
      && s[|g| + 1..|g| + 1 + |v|] == v
      && s[|g| + 1 + |v| + 1..] == rest
  {
    var s := g + "[" + v + "]" + rest;
    assert s[..|g|] == g;
    FirstIndex(s, '[', |g|);
    assert s[..|g| + 1 + |v|] == g + "[" + v;
    FirstIndex(s, ']', |g| + 1 + |v|);
  }

  /** The extraction of `g[v]rest` takes `v`, then carries on with `rest`. */
  lemma BracketContentsHead(g: string, v: string, rest: string)
    requires '[' !in g && ']' !in g && ']' !in v
    ensures BracketContents(g + "[" + v + "]" + rest) == Prepend([v], BracketContents(rest))
  {
    BracketedHead(g, v, rest);
  }

  /** The extraction loop recovers exactly the bracketed values of a well-formed call. */
  lemma {:induction false} BracketContentsOfBracketed(gaps: seq<string>, vals: seq<string>, tail: string)
    requires |gaps| == |vals|
    requires forall k :: 0 <= k < |gaps| ==> '[' !in gaps[k] && ']' !in gaps[k] && ']' !in vals[k]
    requires '[' !in tail
    ensures BracketContents(Bracketed(gaps, vals, tail)) == Some(vals)
    decreases |vals|
  {
    if vals == [] {
      IndexOfChar(tail, '[');
    } else {
      var g, v := gaps[0], vals[0];
      var gs, vs := gaps[1..], vals[1..];
      var rest := Bracketed(gs, vs, tail);
      assert Bracketed(gaps, vals, tail) == g + "[" + v + "]" + rest;
      BracketContentsHead(g, v, rest);
      assert forall k :: 0 <= k < |gs| ==> '[' !in gs[k] && ']' !in gs[k] && ']' !in vs[k] by {
        forall k | 0 <= k < |gs| ensures '[' !in gs[k] && ']' !in gs[k] && ']' !in vs[k] {
          assert gs[k] == gaps[k + 1] && vs[k] == vals[k + 1];
        }
      }
      BracketContentsOfBracketed(gs, vs, tail);
      assert vals == [v] + vs;
    }
  }

  const GroupListCall := "searchSubjectsWithGroupLists(subject_ids:["

  /** convertToGroupListQuery: the text between the first and the second occurrence of
      `queryName` is split at its first `{` into the query call and the rest; the call's
      bracketed values replace the call by a group-list search over them. None where the
      original throws: `queryName` missing, no `{` in that segment, or an unmatched `[`. */
  function GroupListQuery(original: string, queryName: string): Option<string>
    requires |queryName| > 0
  {
    var i := IndexOf(original, queryName);
    if i < 0 then None
    else
      var rest := original[i + |queryName|..];
      var j := IndexOf(rest, queryName);
      var segment := if j < 0 then rest else rest[..j];
      var brace := IndexOf(segment, "{");
      if brace < 0 then None
      else
        match BracketContents(segment[..brace])
        case None => None
        case Some(filters) => Some(original[..i] + GroupListCall + Join(filters, ",") + "])" + segment[brace..])
  }

  lemma IndexOfExtend(s: string, x: string, t: string)
    requires IndexOf(s, t) >= 0
    ensures IndexOf(s + x, t) == IndexOf(s, t)
  {
    var i := IndexOf(s, t);
    IndexOfFirst(s, t);
    IndexOfFirst(s + x, t);
    assert (s + x)[i..i + |t|] == s[i..i + |t|];
    assert OccursAt(s + x, t, i);
    var k := IndexOf(s + x, t);
    if 0 <= k < i {
      assert (s + x)[k..k + |t|] == s[k..k + |t|];
      assert OccursAt(s, t, k);
    }
  }

  /** Where the query name and the text after it lie in a request that names it once. */
  lemma QueryNameSegment(before: string, queryName: string, rest: string)
    requires IndexOf(before + queryName, queryName) == |before|
    ensures var original := before + queryName + rest;
      && IndexOf(original, queryName) == |before|
      && original[..|before|] == before
      && original[|before| + |queryName|..] == rest
  {
    IndexOfExtend(before + queryName, rest, queryName);
    var original := before + queryName + rest;
    assert original == (before + queryName) + rest;
  }

  /** Where the first `{` of `call + after` lies, for a call without `{`. */
  lemma BraceAfterCall(call: string, after: string)
    requires '{' !in call && |after| > 0 && after[0] == '{'
    ensures IndexOf(call + after, "{") == |call|
    ensures (call + after)[..|call|] == call && (call + after)[|call|..] == after
  {
    FirstIndex(call + after, '{', |call|);
    assert (call + after)[..|call|] == call;
  }

  /** The rewrite of a well-formed request: the text before the query name is kept, the call's
      bracketed values become the subject-id list, and everything from the first `{` on is kept. */
  lemma GroupListQueryOfCall(before: string, queryName: string, gaps: seq<string>, vals: seq<string>,
                             tail: string, after: string)
    requires |queryName| > 0 && IndexOf(before + queryName, queryName) == |before|
    requires |gaps| == |vals|
    requires forall k :: 0 <= k < |gaps| ==> '[' !in gaps[k] && ']' !in gaps[k] && ']' !in vals[k] && '{' !in gaps[k] && '{' !in vals[k]
    requires '[' !in tail && '{' !in tail
    requires |after| > 0 && after[0] == '{'
    requires !Contains(Bracketed(gaps, vals, tail) + after, queryName)
    ensures GroupListQuery(before + queryName + Bracketed(gaps, vals, tail) + after, queryName)
         == Some(before + GroupListCall + Join(vals, ",") + "])" + after)
  {
    var call := Bracketed(gaps, vals, tail);
    QueryNameSegment(before, queryName, call + after);
    assert before + queryName + call + after == before + queryName + (call + after);
    BracketedAvoids(gaps, vals, tail, '{');
    BraceAfterCall(call, after);
    BracketContentsOfBracketed(gaps, vals, tail);
  }

  lemma {:induction false} BracketedAvoids(gaps: seq<string>, vals: seq<string>, tail: string, c: char)
    requires |gaps| == |vals| && c != '[' && c != ']'
    requires forall k :: 0 <= k < |gaps| ==> c !in gaps[k] && c !in vals[k]
    requires c !in tail
    ensures c !in Bracketed(gaps, vals, tail)
    decreases |vals|
  {
    if vals != [] {
      BracketedAvoids(gaps[1..], vals[1..], tail, c);
    }
  }

  lemma PrependAssoc(a: seq<string>, b: seq<string>, rest: Option<seq<string>>)
    ensures Prepend(a, Prepend(b, rest)) == Prepend(a + b, rest)
  {
    if rest.Some? {
      assert a + (b + rest.value) == (a + b) + rest.value;
    }
  }

  /** The bracket-extraction loop of convertToGroupListQuery; None where it throws. */
  method ExtractFilters(call: string) returns (r: Option<seq<string>>)
    ensures r == BracketContents(call)
  {
    var queryCall := call;
    var filters: seq<string> := [];
    var openIndex := IndexOf(queryCall, "[");
    assert Prepend(filters, BracketContents(call)) == BracketContents(call) by {
      if BracketContents(call).Some? {
        assert [] + BracketContents(call).value == BracketContents(call).value;
      }
    }
    while openIndex != -1
      invariant openIndex == IndexOf(queryCall, "[")
      invariant Prepend(filters, BracketContents(queryCall)) == BracketContents(call)
      decreases |queryCall|
    {
      var closeIndex := IndexOf(queryCall, "]");
      if closeIndex < openIndex + 1 {
        return None;
      }
      var piece := queryCall[openIndex + 1..closeIndex];
      PrependAssoc(filters, [piece], BracketContents(queryCall[closeIndex + 1..]));
      filters := filters + [piece];
      queryCall := queryCall[closeIndex + 1..];
      openIndex := IndexOf(queryCall, "[");
    }
    assert filters + [] == filters;
    r := Some(filters);
  }

  /** convertToGroupListQuery; None where the original throws. */
  method ConvertToGroupListQuery(original: string, queryName: string) returns (r: Option<string>)
    requires |queryName| > 0
    ensures r == GroupListQuery(original, queryName)
  {
    var i := IndexOf(original, queryName);
    if i < 0 {
      return None;
    }
    var before := original[..i];
    var rest := original[i + |queryName|..];
    var j := IndexOf(rest, queryName);
    var segment := if j < 0 then rest else rest[..j];
    var braceIndex := IndexOf(segment, "{");
    if braceIndex < 0 {
      return None;
    }
    var after := segment[braceIndex..];
    var filters := ExtractFilters(segment[..braceIndex]);
    if filters.None? {
      return None;
    }
    r := Some(before + GroupListCall + Join(filters.value, ",") + "])" + after);
  }

  /** stringContains: some listed name is a substring of the input. */
  function StringContains(input: string, queries: seq<string>): (r: bool)
    ensures r <==> exists k, i :: 0 <= k < |queries| && OccursAt(input, queries[k], i)
    decreases |queries|
  {
    if queries == [] then false
    else
      var later := StringContains(input, queries[1..]);
      assert later <==> exists k, i :: 1 <= k < |queries| && OccursAt(input, queries[k], i) by {
        if later {
          var k, i :| 0 <= k < |queries[1..]| && OccursAt(input, queries[1..][k], i);
          assert OccursAt(input, queries[k + 1], i);
        }
        if exists k, i :: 1 <= k < |queries| && OccursAt(input, queries[k], i) {
          var k, i :| 1 <= k < |queries| && OccursAt(input, queries[k], i);
          assert queries[1..][k - 1] == queries[k];
        }
      }
      Contains(input, queries[0]) || later
  }

  // ---------------------------------------------------------------------------------------------
  // The controller

  class GraphQLController {
    const config: Config
    const neo4jService: Neo4jGraphQLService
    const redisService: RedisService

    constructor (config: Config, neo4jService: Neo4jGraphQLService, redisService: RedisService)
      ensures this.config == config && this.neo4jService == neo4jService && this.redisService == redisService
    {
      this.config := config;
      this.neo4jService := neo4jService;
      this.redisService := redisService;
    }

    /** The GraphQL endpoint: the request `reqBody`, parsed as `parsed`, answered as Respond
        says; the cache and the backend see exactly the effects Respond describes. */
    method GetGraphQLResponse(reqBody: string, parsed: ParsedBody) returns (response: Response)
      modifies redisService`values, neo4jService`requests
      ensures var e := Respond(config, old(redisService.values), neo4jService.answer, reqBody, parsed);
        && response == e.response
        && redisService.values == e.cache
        && neo4jService.requests == old(neo4jService.requests) + e.sent
    {
      var operation: string;
      var queryKey: string;
      match parsed {
        case Undecodable =>
          return Uncaught;
        case Invalid(diagnostic) =>
          return Error(BadRequest, "Invalid query in request", [diagnostic]);
        case Parsed(doc) =>
          queryKey := doc.canonical;
          if doc.variables.Some? {
            queryKey := queryKey + "::" + doc.variables.value;
          }
          operation := doc.operation;
          assert queryKey == CacheKey(doc);
      }
      if (operation == "query" && config.allowGraphQLQuery)
        || (operation == "mutation" && config.allowGraphQLMutation)
      {
        assert Policy(operation, config) == Permitted;
        var responseText: string;
        if config.redisEnabled {
          var cached := redisService.GetCachedValue(queryKey);
          if cached.None? {
            var result := neo4jService.Query(reqBody);
            if result.Failed? {
              return BackendError(result.error);
            }
            responseText := result.text;
            redisService.CacheValue(queryKey, responseText);
          } else {
            responseText := cached.value;
          }
        } else {
          var result := neo4jService.Query(reqBody);
          if result.Failed? {
            return BackendError(result.error);
          }
          responseText := result.text;
        }
        response := Ok(responseText);
      } else if operation == "query" || operation == "mutation" {
        assert Policy(operation, config) == Disabled;
        response := Error(Forbidden, "Request type has been disabled",
                          [operation + " operations have been disabled in the application configuration."]);
      } else {
        assert Policy(operation, config) == Unrecognized;
        response := Error(BadRequest, "Unknown operation in request", [operation + " operation is not recognized."]);
      }
    }

    /** storeUnion for one category: the step StepFor describes, with its union written to the store. */
    method StoreUnion(category: string, body: FilterBody) returns (step: UnionStep)
      modifies redisService`sets
      ensures step == StepFor(category, body)
      ensures step.Store? ==> redisService.sets == old(redisService.sets)[step.key := UnionOf(old(redisService.sets), step.names)]
      ensures !step.Store? ==> redisService.sets == old(redisService.sets)
    {
      match body {
        case None =>
          return Throw;
        case Some(m) =>
          if category !in m {
            return Skip;
          }
          match m[category] {
            case NotAList =>
              return Throw;
            case Values(list) =>
              var values := QualifyValues(category, list);
              assert values == Qualified(category, list);
              var key := category + UnionSuffix;
              redisService.UnionStore(key, values);
              return Store(key, values);
          }
      }
    }

    /** The set-filter endpoint: unions stored per category as StoreUnions says, then the
        intersection of the collected union keys, joined with `","`. */
    method GetGraphQLSetResponse(body: FilterBody) returns (response: Response)
      modifies redisService`sets
      ensures var u := StoreUnions(old(redisService.sets), redisService.groups, body);
        && redisService.sets == u.sets
        && (response.Uncaught? <==> u.failed)
        && (!u.failed ==> response.Ok?)
        && (!u.failed && |u.keys| > 0 ==>
              exists ids :: Enumerates(ids, Intersect(u.sets, u.keys)) && response.body == Join(ids, IdSeparator))
    {
      ghost var sets0 := redisService.sets;
      var groups := redisService.groups;
      var keys: seq<string> := [];
      var i := 0;
      while i < |groups|
        invariant 0 <= i <= |groups|
        invariant StoreUnions(sets0, groups[..i], body) == Unions(keys, redisService.sets, false)
      {
        assert groups[..i + 1][..i] == groups[..i];
        var step := StoreUnion(groups[i], body);
        if step.Throw? {
          FailureIsFinal(sets0, groups, i + 1, body);
          return Uncaught;
        }
        if step.Store? {
          keys := keys + [step.key];
        }
        i := i + 1;
      }
      assert groups[..i] == groups;
      var ids := redisService.GetIntersection(keys);
      response := Ok(Join(ids, IdSeparator));
    }
  }
}
