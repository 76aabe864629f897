/** The collaborators the controller and the initializer are wired to: the configuration, the
    backend graph service and the Redis store. Their implementations are not part of this model;
    each is reduced to the state the core reads and writes and to the contract of each call the
    core makes. */
module Services {
  import opened JavaText

  /** The configuration flags the core consults. */
  datatype Config = Config(
    allowGraphQLQuery: bool,
    allowGraphQLMutation: bool,
    redisEnabled: bool,
    redisSetsEnabled: bool)

  /** The structured error the backend throws: an HTTP status, a message and detail lines. */
  datatype ApiError = ApiError(status: int, message: string, errors: seq<string>)

  /** What one backend call yields: the response text, or the error it throws. */
  datatype BackendResult = Answer(text: string) | Failed(error: ApiError)

  /** The backend graph service. It answers deterministically, as a function of the request
      text; `requests` records every request text sent to it, in order. */
  class Neo4jGraphQLService {
    const answer: string -> BackendResult
    var requests: seq<string>

    constructor (answer: string -> BackendResult)
      ensures this.answer == answer && requests == []
    {
      this.answer := answer;
      requests := [];
    }

    /** Sends `body` verbatim and returns the backend's answer to it. */
    method Query(body: string) returns (r: BackendResult)
      modifies this`requests
      ensures r == answer(body)
      ensures requests == old(requests) + [body]
    {
      r := answer(body);
      requests := requests + [body];
    }
  }

  /** The members of the named set, a missing name standing for the empty set. */
  function Members(sets: map<string, set<string>>, name: string): set<string>
  {
    if name in sets then sets[name] else {}
  }

  /** The union of the named sets; names with no stored set contribute nothing. */
  function UnionOf(sets: map<string, set<string>>, names: seq<string>): (u: set<string>)
    ensures forall x :: x in u <==> exists i :: 0 <= i < |names| && x in Members(sets, names[i])
    decreases |names|
  {
    if names == [] then {}
    else
      var rest := UnionOf(sets, names[1..]);
      assert forall x :: x in rest <==> exists i :: 1 <= i < |names| && x in Members(sets, names[i]) by {
        forall x ensures x in rest <==> exists i :: 1 <= i < |names| && x in Members(sets, names[i]) {
          if x in rest {
            var i :| 0 <= i < |names[1..]| && x in Members(sets, names[1..][i]);
            assert x in Members(sets, names[i + 1]);
          }
        }
      }
      Members(sets, names[0]) + rest
  }

  /** The intersection of the named sets, for at least one name. */
  function Intersect(sets: map<string, set<string>>, keys: seq<string>): (s: set<string>)
    requires |keys| > 0
    ensures forall x :: x in s <==> forall i :: 0 <= i < |keys| ==> x in Members(sets, keys[i])
    decreases |keys|
  {
    if |keys| == 1 then Members(sets, keys[0])
    else
      var rest := Intersect(sets, keys[1..]);
      assert forall x :: x in rest <==> forall i :: 1 <= i < |keys| ==> x in Members(sets, keys[i]) by {
        forall x ensures x in rest <==> forall i :: 1 <= i < |keys| ==> x in Members(sets, keys[i]) {
          if forall i :: 1 <= i < |keys| ==> x in Members(sets, keys[i]) {
            forall i | 0 <= i < |keys[1..]| ensures x in Members(sets, keys[1..][i]) {
              assert keys[1..][i] == keys[i + 1];
            }
          }
        }
      }
      Members(sets, keys[0]) * rest
  }

  /** The Redis store: plain key/value entries for the response cache, named sets for the group
      lists and their unions, and the list of group categories it reports. */
  class RedisService {
    const initialized: bool
    const groups: seq<string>
    var values: map<string, string>
    var sets: map<string, set<string>>

    constructor (initialized: bool, groups: seq<string>, values: map<string, string>, sets: map<string, set<string>>)
      ensures this.initialized == initialized && this.groups == groups
      ensures this.values == values && this.sets == sets
    {
      this.initialized := initialized;
      this.groups := groups;
      this.values := values;
      this.sets := sets;
    }

    /** The cached text under `key`, or None on a miss. */
    method GetCachedValue(key: string) returns (r: Option<string>)
      ensures r.Some? <==> key in values
      ensures r.Some? ==> r.value == values[key]
    {
      r := if key in values then Some(values[key]) else None;
    }

    method CacheValue(key: string, value: string)
      modifies this`values
      ensures values == old(values)[key := value]
    {
      values := values[key := value];
    }

    /** Stores the union of the named sets under `key`, replacing what was there. */
    method UnionStore(key: string, names: seq<string>)
      modifies this`sets
      ensures sets == old(sets)[key := UnionOf(old(sets), names)]
    {
      sets := sets[key := UnionOf(sets, names)];
    }

    /** Stores the group `name` with exactly the given members, replacing any earlier set. */
    method CacheGroup(name: string, members: seq<string>)
      modifies this`sets
      ensures sets == old(sets)[name := set m | m in members]
    {
      sets := sets[name := set m | m in members];
    }

    /** The members common to all the named sets, each once, in an order the store chooses.
        What the store answers for no keys at all is left unspecified. */
    method GetIntersection(keys: seq<string>) returns (r: seq<string>)
      ensures |keys| > 0 ==> forall x :: x in r <==> x in Intersect(sets, keys)
      ensures forall i, j :: 0 <= i < j < |r| ==> r[i] != r[j]
    {
      r := [];
      if |keys| == 0 {
        return;
      }
      var rest := Intersect(sets, keys);
      while rest != {}
        invariant forall x :: x in Intersect(sets, keys) <==> x in rest || x in r
        invariant forall x :: x in r ==> x !in rest
        invariant forall i, j :: 0 <= i < j < |r| ==> r[i] != r[j]
        decreases rest
      {
        var x :| x in rest;
        r := r + [x];
        rest := rest - {x};
      }
    }
  }
}
