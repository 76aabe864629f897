# Bento backend gateway: request gate, set filter and group-list loader

This project models the core of the Bento backend's GraphQL gateway in Dafny and proves properties of that model:

- **Request gate.** `GraphQLController.getGraphQLResponse` does four things:
  - classifies a request body: parse failure, `query`, `mutation`, or another operation kind;
  - builds the response-cache key from the parsed document's canonical text and, when present, the serialised variables;
  - applies the allow-query and allow-mutation flags, giving 403 or 400;
  - serves permitted requests through a read-through cache in front of the graph backend.
- **Set filter.** `getGraphQLSetResponse` and `storeUnion` work on the store's group categories:
  - for every category the store knows, they store the union of the groups `category:value` named in the request under `categoryUnion`;
  - they then intersect all the union keys collected and join the surviving subject identifiers with `","`.
- **String helpers.** `convertToGroupListQuery` (a bracket-extraction loop), `stringContains`, and the initializer's `removeQuotes` and `formatSubjects`.
- **Group-list loader.** `ApplicationInitializer.afterPropertiesSet` runs `initGroupListsInCache` only when the store is initialised and set filtering is enabled.
  - The loader sends one request per configured query and caches each returned group as a set of subject identifiers.
  - A failure absorbs only the rest of the query it happened in.

Files and modules:

| file | module | contents |
|---|---|---|
| `java_text.dfy` | `JavaText` | The `java.lang.String` operations used by the core: `indexOf`, `contains`, removal of one character, `String.join`, and `String.split` on a one-character pattern, including its dropping of trailing empty pieces. |
| `services.dfy` | `Services` | The configuration flags, the backend (`Neo4jGraphQLService`: a deterministic answer function plus a log of the requests sent), and the Redis store (`RedisService`: string values for the response cache, named sets for group lists). |
| `graphql_controller.dfy` | `Controller` | `Respond`, the specification of the request gate, with its lemmas; `StoreUnions` and the set-filter theorems; `GroupListQuery` and `StringContains`; the `GraphQLController` class, whose methods are proved against those functions. |
| `application_initializer.dfy` | `Initializer` | `RemoveQuotes`, `FormatSubjects` and their round trips; `LoadQueries`, the specification of the loader, with its lemmas; the `ApplicationInitializer` class. |

Modelling choices:

- **Parsed inputs.** Results of foreign libraries are inputs of the model:
  - `ParsedBody` holds the canonical document text, the variables text and the operation kind;
  - `FilterBody` is the decoded set-filter body;
  - `GroupListResponse` is the decoded answer to a group-list query;
  - `QueriesResource` is the queries resource.
- **Exceptions.** An exception that escapes a handler is the `Uncaught` response. An exception caught inside the code is modelled on the path the code takes after catching it.
- **Undecodable request body.** In `getGraphQLResponse`, reading the body (GraphQLController.java:117) and its JSON decoding (line 119) sit outside the `try`. So a missing body, or a body the decoder throws on (malformed JSON, or JSON that is not an object), escapes as `Uncaught` (`Undecodable`) rather than giving a 400. An empty or whitespace-only body decodes to null without throwing; the member lookup at line 123 then throws inside the `try`, and the answer is 400 (`Invalid`).
- **Null set-filter body.** In `storeUnion`, an empty, whitespace-only or missing body decodes to null (GraphQLController.java:98), and the member lookup at line 99 throws the null-pointer exception caught at line 81. Every category is then skipped, exactly as for `Some(map[])`, and the endpoint answers 200 with the intersection of zero keys. Only a decoder exception (`None`) escapes.
- **Unmatched categories.** A category whose requested values match no stored group still gets an empty union stored under `categoryUnion`, and the code intersects with it (GraphQLController.java:79, 104-105). A filter that ignored such a category would be a plausible intent, but the model follows the code: `UnmatchedCategoryEmptiesResult` proves that the whole result is then empty.

## Model

| member | source | states |
|---|---|---|
| JavaText.IndexOf | src/main/java/gov/nih/nci/bento/controller/GraphQLController.java:277-286 | `indexOf` returns -1 or an index at which the pattern occurs. |
| JavaText.IndexOfFirst | src/main/java/gov/nih/nci/bento/controller/GraphQLController.java:277-286 | No occurrence comes before the index `indexOf` returns, and there is none at all when it returns -1. |
| JavaText.IndexOfChar | src/main/java/gov/nih/nci/bento/controller/GraphQLController.java:281-286 | `indexOf(char)` is -1 iff the character is absent; otherwise the result holds that character and no earlier position does. |
| JavaText.Contains | src/main/java/gov/nih/nci/bento/controller/GraphQLController.java:298 | `String.contains` holds iff the pattern occurs at some index. |
| JavaText.Remove | src/main/java/gov/nih/nci/bento/ApplicationInitializer.java:87-93 | Removing a character leaves none of it and never lengthens the text. |
| JavaText.RemoveCounts | src/main/java/gov/nih/nci/bento/ApplicationInitializer.java:87-93 | Removal keeps every other character as often as it occurred. |
| JavaText.RemoveIdempotent | src/main/java/gov/nih/nci/bento/ApplicationInitializer.java:87 | Removing a character a second time changes nothing. |
| JavaText.PiecesJoin | src/main/java/gov/nih/nci/bento/ApplicationInitializer.java:94 | Joining the pieces between the separators, empty ones included, with the separator gives the text back. |
| JavaText.PiecesClean | src/main/java/gov/nih/nci/bento/ApplicationInitializer.java:94 | No piece contains the separator, and each piece's characters come from the text. |
| JavaText.Split | src/main/java/gov/nih/nci/bento/ApplicationInitializer.java:94 | No piece of `split` contains the separator, and every piece's characters come from the input. |
| JavaText.SplitJoin | src/main/java/gov/nih/nci/bento/ApplicationInitializer.java:94 | Joining the pieces of `split` with the separator gives back the input minus its trailing separators: split loses exactly the trailing empty pieces. |
| Services.UnionOf | src/main/java/gov/nih/nci/bento/controller/GraphQLController.java:105 | An element is in the union iff some named set holds it; a missing name contributes nothing. |
| Services.Intersect | src/main/java/gov/nih/nci/bento/controller/GraphQLController.java:84 | For at least one key, an element is in the intersection iff every named set holds it. |
| Services.Neo4jGraphQLService.Query | src/main/java/gov/nih/nci/bento/controller/GraphQLController.java:147 | The backend's answer to the text sent; the text is appended to the log of requests. |
| Services.RedisService.GetCachedValue | src/main/java/gov/nih/nci/bento/controller/GraphQLController.java:145-146 | The cached text under the key, or nothing exactly when the key is absent. |
| Services.RedisService.CacheValue | src/main/java/gov/nih/nci/bento/controller/GraphQLController.java:148 | The key now maps to the value; no other entry changes. |
| Services.RedisService.UnionStore | src/main/java/gov/nih/nci/bento/controller/GraphQLController.java:105 | The key now holds the union of the named sets as they were before; no other set changes. |
| Services.RedisService.CacheGroup | src/main/java/gov/nih/nci/bento/ApplicationInitializer.java:67 | The group now holds exactly the given members; no other set changes. |
| Services.RedisService.GetIntersection | src/main/java/gov/nih/nci/bento/controller/GraphQLController.java:84 | For at least one key, it lists the intersection of the named sets, each element once. |
| Controller.Respond | src/main/java/gov/nih/nci/bento/controller/GraphQLController.java:112-189 | Over all inputs: at most the raw body is sent to the backend; a 200 needs a parsed, permitted operation; the cache changes only on a permitted miss with caching on, and then only at the key, to the response served. |
| Controller.CacheKeyMarksVariables | src/main/java/gov/nih/nci/bento/controller/GraphQLController.java:126-130 | With no variables the key is the canonical text; with variables it is the canonical text, then `::`, then the variables. |
| Controller.CacheKeyDeterminesVariables | src/main/java/gov/nih/nci/bento/controller/GraphQLController.java:126-130 | For one canonical text, equal keys mean equal variables, presence included. |
| Controller.CacheKeyCollision | src/main/java/gov/nih/nci/bento/controller/GraphQLController.java:126-130 | A canonical text containing `::` can share its key with another document that carries variables. |
| Controller.InvalidQueryRejected | src/main/java/gov/nih/nci/bento/controller/GraphQLController.java:122-138 | A body that fails to parse, or whose first definition is not an operation, gets 400 "Invalid query in request"; cache and backend are untouched. |
| Controller.PolicyDecidesService | src/main/java/gov/nih/nci/bento/controller/GraphQLController.java:140-182 | Whatever the backend answers, a query is served (from the cache, or by sending the body to the backend) iff queries are allowed, and a mutation iff mutations are; otherwise 403, with cache and backend untouched. |
| Controller.RefusalIgnoresCacheAndBackend | src/main/java/gov/nih/nci/bento/controller/GraphQLController.java:140-187 | An operation that is not permitted gets the same error whatever the cache and the backend: 403 for a disabled query or mutation, 400 for any other kind. |
| Controller.CacheHitServesCachedText | src/main/java/gov/nih/nci/bento/controller/GraphQLController.java:144-171 | With caching on, a cached text is returned unchanged and no request is sent. |
| Controller.CacheMissReadsThrough | src/main/java/gov/nih/nci/bento/controller/GraphQLController.java:144-175 | With caching on, a miss sends the raw body and then either stores the answer under the key and returns it, or returns the backend error's status with nothing stored. |
| Controller.CacheDisabledPassesThrough | src/main/java/gov/nih/nci/bento/controller/GraphQLController.java:168-175 | With caching off, the raw body goes to the backend, its answer or error is returned, and the cache is unchanged. |
| Controller.RepeatServedFromCache | src/main/java/gov/nih/nci/bento/controller/GraphQLController.java:144-148 | After one request is served with caching on, any request with the same key is served the same text from the cache, with no backend call. |
| Controller.FailureIsFinal | src/main/java/gov/nih/nci/bento/controller/GraphQLController.java:77-82 | Once an exception has escaped the category loop, later categories change nothing. |
| Controller.FailsIff | src/main/java/gov/nih/nci/bento/controller/GraphQLController.java:77-100 | The set endpoint throws iff the store knows at least one category and, for one of them, the decoder throws on the body or the category's member is not a list; absent categories are skipped. |
| Controller.UnionKeysOfSelected | src/main/java/gov/nih/nci/bento/controller/GraphQLController.java:77-106 | Without an exception, the keys collected are exactly `category + "Union"` for the known categories that the body names. |
| Controller.StoreUnionsFrame | src/main/java/gov/nih/nci/bento/controller/GraphQLController.java:104-105 | The category loop writes only union keys; every other set is unchanged. |
| Controller.UnionOfSelected | src/main/java/gov/nih/nci/bento/controller/GraphQLController.java:99-105 | Provided no union key `category + "Union"` is also a requested group name `category:value` (NoClash), each selected category's union key holds the union of its groups `category:value` as they were before the request. |
| Controller.FilterMeaning | src/main/java/gov/nih/nci/bento/controller/GraphQLController.java:77-107 | Provided no union key is also a requested group name (NoClash) and at least one key is collected, an identifier survives iff, for every known category the body selects, it belongs to some group `category:value` of a requested value. |
| Controller.UnmatchedCategoryEmptiesResult | src/main/java/gov/nih/nci/bento/controller/GraphQLController.java:79-105 | Provided no union key is also a requested group name (NoClash), a selected category none of whose requested groups holds anything empties the whole result. |
| Controller.UnknownCategoryIgnored | src/main/java/gov/nih/nci/bento/controller/GraphQLController.java:77 | Categories come from the store: what the body says about a category the store does not know changes nothing. |
| Controller.NothingSelected | src/main/java/gov/nih/nci/bento/controller/GraphQLController.java:77-82 | A body that names no known category collects no key and leaves the store unchanged. |
| Controller.QualifyValues | src/main/java/gov/nih/nci/bento/controller/GraphQLController.java:100-103 | The in-place loop turns each value `v` into `category:v`, keeping length and order. |
| Controller.BracketContentsClean | src/main/java/gov/nih/nci/bento/controller/GraphQLController.java:281-287 | No extracted filter contains `]`. |
| Controller.BracketContentsOfBracketed | src/main/java/gov/nih/nci/bento/controller/GraphQLController.java:281-287 | On a call made of bracket-free gaps and bracketed values, extraction returns exactly those values in order. |
| Controller.ExtractFilters | src/main/java/gov/nih/nci/bento/controller/GraphQLController.java:280-287 | The extraction loop yields what BracketContents specifies, and fails exactly where the substring call throws. |
| Controller.GroupListQueryOfCall | src/main/java/gov/nih/nci/bento/controller/GraphQLController.java:274-290 | On a well-formed request, the rewrite keeps the text before the query name, replaces the call by `searchSubjectsWithGroupLists(subject_ids:[` + the bracketed values joined by `,` + `])`, and keeps everything from the first `{`. |
| Controller.ConvertToGroupListQuery | src/main/java/gov/nih/nci/bento/controller/GraphQLController.java:274-290 | The method computes GroupListQuery, and returns nothing where the original throws. |
| Controller.StringContains | src/main/java/gov/nih/nci/bento/controller/GraphQLController.java:297-298 | True iff some listed name occurs in the input as a substring. |
| Controller.GraphQLController.GetGraphQLResponse | src/main/java/gov/nih/nci/bento/controller/GraphQLController.java:112-189 | Its response, the cache afterwards and the requests sent are those of Respond. |
| Controller.GraphQLController.StoreUnion | src/main/java/gov/nih/nci/bento/controller/GraphQLController.java:97-107 | Throws, skips, or stores under `category + "Union"` the union of the groups `category:v`, as StepFor says; the store changes only in the stored case. |
| Controller.GraphQLController.GetGraphQLSetResponse | src/main/java/gov/nih/nci/bento/controller/GraphQLController.java:73-95 | Uncaught iff the category loop throws. Otherwise it returns 200, leaves the store as StoreUnions says and, for at least one key, lists the intersection of the union keys, each identifier once, joined by `","`. |
| Initializer.RemoveQuotes | src/main/java/gov/nih/nci/bento/ApplicationInitializer.java:86-88 | The result has no `"` and keeps every other character. |
| Initializer.RemoveQuotesIdempotent | src/main/java/gov/nih/nci/bento/ApplicationInitializer.java:86-88 | Applying removeQuotes twice is the same as applying it once. |
| Initializer.StripList | src/main/java/gov/nih/nci/bento/ApplicationInitializer.java:91-93 | After stripping, no `"`, `[` or `]` is left, and every other character is kept as often as it occurred. |
| Initializer.FormatSubjects | src/main/java/gov/nih/nci/bento/ApplicationInitializer.java:90-95 | No identifier contains `"`, `[`, `]` or `,`, and every identifier's characters come from the input. |
| Initializer.FormatSubjectsJoin | src/main/java/gov/nih/nci/bento/ApplicationInitializer.java:90-95 | Joining the identifiers with `,` gives back the stripped text minus its trailing commas. |
| Initializer.FormatSubjectsOfEmptyArray | src/main/java/gov/nih/nci/bento/ApplicationInitializer.java:90-95 | The empty array `[]` gives one empty identifier, not an empty list. |
| Initializer.FormatSubjectsOfJsonList | src/main/java/gov/nih/nci/bento/ApplicationInitializer.java:90-95 | formatSubjects inverts the JSON serialisation of a non-empty list of identifiers whose last identifier is not empty and which need no escaping: no quote, bracket, comma, backslash, control character, U+2028 or U+2029. |
| Initializer.GroupListRequestInjective | src/main/java/gov/nih/nci/bento/ApplicationInitializer.java:58 | The request text determines the query name. |
| Initializer.Writes | src/main/java/gov/nih/nci/bento/ApplicationInitializer.java:62-68 | The element loop writes one group per element, in order, up to the first malformed element and none after it; each write is the cleaned group name with the formatted subjects. |
| Initializer.Requests | src/main/java/gov/nih/nci/bento/ApplicationInitializer.java:56-58 | One request per query, in order, each the text `{"query":"{q{group, subjects}}"}`. |
| Initializer.ApplyFrame | src/main/java/gov/nih/nci/bento/ApplicationInitializer.java:67 | A group that no write names keeps its members. |
| Initializer.ApplyLastWins | src/main/java/gov/nih/nci/bento/ApplicationInitializer.java:67 | The last write to a group decides its members. |
| Initializer.LoadQueriesAppend | src/main/java/gov/nih/nci/bento/ApplicationInitializer.java:56-79 | The writes for two lists of queries are the writes of the first list followed by those of the second. |
| Initializer.FailedQuerySkipped | src/main/java/gov/nih/nci/bento/ApplicationInitializer.java:56-79 | A query whose backend call throws writes nothing, and the queries after it are still loaded. |
| Initializer.WrittenGroupsClean | src/main/java/gov/nih/nci/bento/ApplicationInitializer.java:64-67 | Every group name written is free of `"`, and every member is free of `"`, `[`, `]` and `,`. |
| Initializer.ApplicationInitializer.AfterPropertiesSet | src/main/java/gov/nih/nci/bento/ApplicationInitializer.java:44-48 | Loads only when the store is initialised and set filtering is enabled, and otherwise changes nothing. For a `queries` list of strings, start-up fails exactly when loading runs and the resource has no `queries` list. |
| Initializer.ApplicationInitializer.InitGroupListsInCache | src/main/java/gov/nih/nci/bento/ApplicationInitializer.java:50-84 | Sends Requests(queries) and leaves the store as Apply over LoadQueries. An unreadable resource changes nothing and is absorbed; a missing `queries` list fails. |
| Initializer.ApplicationInitializer.LoadGroupLists | src/main/java/gov/nih/nci/bento/ApplicationInitializer.java:57-78 | One query: its request is sent and the store receives that query's writes; a backend error or a malformed answer is absorbed. |
| Initializer.ApplicationInitializer.CacheGroupLists | src/main/java/gov/nih/nci/bento/ApplicationInitializer.java:62-68 | The element loop leaves the store as the writes Writes lists. |

## Left out

- **Transport glue.** Spring routing and annotations, `getVersion`, the handler that answers 405 to non-POST methods, and `logAndReturnError` (GraphQLController.java:49-68, 292-295) carry no logic beyond forwarding. Responses are modelled as status, message and detail lines, not as serialised JSON error text.
- **`sortQueries`.** The `/demo/graphql/` endpoint (GraphQLController.java:195-272) is not modelled. It relies on `StringTokenizer` with changing delimiters and swallows every exception. Only `stringContains`, which it uses, is modelled.
- **Commented-out code.** The code at GraphQLController.java:85-93 and 150-166 is not modelled.
- **Libraries and UTF-8.**
  - The UTF-8 byte round trip of the query text (GraphQLController.java:123) is not modelled.
  - graphql-java parsing and `Document.toString()` are not modelled; their results are inputs.
  - Gson decoding is not modelled; its results are inputs.
  - SnakeYAML resource loading is not modelled; its result is an input.
- **Store and backend implementations.** `RedisService.java` and `Neo4JGraphQLService.java` are not part of this model. Their calls are given the contracts stated in the table above:
  - `unionStore` treats a missing set as empty;
  - `cacheGroup` replaces the group's set;
  - the backend answers deterministically.
  - Store write failures are not modelled.
- Services.RedisService.UnionStore: for an empty list of names (a body such as `{"A": []}`) it is assumed to store the empty set under the key. A store that rejects a union with no source set would answer with an error instead; that is not modelled, and the empty result `UnmatchedCategoryEmptiesResult` gives for such a body rests on this assumption.
- **Intersection of zero keys.** Services.RedisService.GetIntersection: what the store answers for zero keys is left unspecified. Controller.GraphQLController.GetGraphQLSetResponse therefore says nothing about the listed identifiers when no category was selected.
- **Logging and concurrency.** Logging is left out. Concurrent requests sharing the cache and the store are not modelled; each call is atomic.
- **Regular expressions.** Controller.ConvertToGroupListQuery requires a non-empty query name and treats it as a literal. `String.split` would read regular-expression metacharacters in it, and an empty pattern splits between characters; neither is modelled. One consequence: the only name the code passes, `"searchSubjects("` (at the call site commented out at GraphQLController.java:151 and 157), is not a valid regular expression because of its unclosed group. So the Java method always throws `PatternSyntaxException` for it, while `GroupListQuery` returns a rewrite.
- **Non-string values.** A JSON `null` element of a set-filter list is kept by the list decoding (GraphQLController.java:99-100) and becomes the group name `category:null`; the model expresses it as the value `"null"`. Other non-string elements (numbers, objects, arrays) are not modelled. They fail at `toArray(new String[0])`; the model's selections are lists of strings.
- Initializer.ApplicationInitializer.AfterPropertiesSet: a `queries` entry that is not a string (such as YAML `- 123`) is not modelled. In Java it throws `ClassCastException` at the loop header (ApplicationInitializer.java:56). That is outside the per-query `try` and not caught at line 80, so start-up fails after the earlier queries were loaded. `QueriesResource` holds only string names. A YAML `null` entry would be formatted as the text `null` and is not modelled either.
- Initializer.FormatSubjectsOfJsonList: identifiers that the JSON writer escapes (a backslash, a control character, U+2028, U+2029) are not covered. `JsonList` renders without escapes, and formatSubjects would return the escape sequences as they are.
- **JSON text of group lists.** The JSON text of a `group` or `subjects` member is an input. An explicit JSON `null` member arrives as the text `null`; a missing member is `None`.
