/**
 * The publish/subscribe fabric as the gateway sees it through its client:
 * payload objects, messages, a persisted store that queries read, and a
 * log of every query and every publish call made.
 */
module Fabric {
  import opened Wrappers

  newtype byte = b: int | 0 <= b < 256

  /** Payload objects carried by a message. */
  datatype Payload =
    | MetadataPO(value: string, timestamp: int)  // a msgpack metadata tuple, timestamp in Unix nanoseconds
    | BinaryActuationPO(contents: seq<byte>)     // a binary-actuation object
    | OtherPO(ponum: int)                        // any other payload object

  datatype Kind = MetadataKind | BinaryActuationKind | OtherKind

  function KindOf(p: Payload): Kind
  {
    match p
    case MetadataPO(_, _) => MetadataKind
    case BinaryActuationPO(_) => BinaryActuationKind
    case OtherPO(_) => OtherKind
  }

  type Message = seq<Payload>

  /** The first payload object of the given kind in a message, if any. */
  function GetOne(m: Message, kind: Kind): (r: Option<Payload>)
    ensures r.Some? ==> r.value in m && KindOf(r.value) == kind
    ensures r.None? <==> forall p :: p in m ==> KindOf(p) != kind
    ensures r.Some? ==> exists k :: 0 <= k < |m| && m[k] == r.value &&
                          forall j :: 0 <= j < k ==> KindOf(m[j]) != kind
  {
    if m == [] then None
    else if KindOf(m[0]) == kind then Some(m[0])
    else
      var r := GetOne(m[1..], kind);
      assert forall p :: p in m ==> p == m[0] || p in m[1..];
      if r.Some? then
        assert exists k :: 0 <= k < |m[1..]| && m[1..][k] == r.value &&
                 forall j :: 0 <= j < k ==> KindOf(m[1..][j]) != kind;
        var k :| 0 <= k < |m[1..]| && m[1..][k] == r.value &&
                 forall j :: 0 <= j < k ==> KindOf(m[1..][j]) != kind;
        assert m[k + 1] == r.value;
        assert forall j :: 0 <= j < k + 1 ==> KindOf(m[j]) != kind by {
          forall j | 0 <= j < k + 1 ensures KindOf(m[j]) != kind {
            if j > 0 { assert m[j] == m[1..][j - 1]; }
          }
        }
        r
      else r
  }

  /** One publish call: the address, the payload objects, and the persist flag. */
  datatype Publication = Publication(uri: string, payloads: Message, persist: bool)

  /** What a query returns: an error, or the persisted message (if any). */
  datatype QueryResult = QueryError | Answer(existing: Option<Message>)

  /**
   * A snapshot of the fabric: the persisted message per address, the
   * positions in the query log of the queries that fail (a failure is a
   * property of one call, not of an address), and the logs of queries and
   * publishes.
   */
  datatype FabricState = FabricState(
    store: map<string, Message>,
    failingQueries: set<nat>,
    queries: seq<string>,
    log: seq<Publication>)

  /** The answer the next query, for `uri`, gets from state `s`. */
  function QueryAnswer(s: FabricState, uri: string): (r: QueryResult)
    ensures r.QueryError? <==> |s.queries| in s.failingQueries
    ensures r.Answer? ==> (r.existing.Some? <==> uri in s.store)
    ensures r.Answer? && r.existing.Some? ==> r.existing.value == s.store[uri]
  {
    if |s.queries| in s.failingQueries then QueryError
    else if uri in s.store then Answer(Some(s.store[uri]))
    else Answer(None)
  }

  /** A publish call: logged, and, when persisted, retained for later queries. */
  function PublishState(s: FabricState, uri: string, payloads: Message, persist: bool): (r: FabricState)
    ensures r.log == s.log + [Publication(uri, payloads, persist)]
    ensures r.queries == s.queries && r.failingQueries == s.failingQueries
    ensures persist ==> uri in r.store && r.store[uri] == payloads
    ensures forall u :: u != uri ==> (u in r.store <==> u in s.store)
    ensures forall u :: u in s.store && u != uri ==> r.store[u] == s.store[u]
    ensures !persist ==> r.store == s.store
  {
    s.(log := s.log + [Publication(uri, payloads, persist)],
       store := if persist then s.store[uri := payloads] else s.store)
  }

  /** The messaging client: each call updates the fabric and its logs in place. */
  class Client {
    var store: map<string, Message>
    var failingQueries: set<nat>
    var queries: seq<string>
    var log: seq<Publication>

    function State(): FabricState
      reads this
    {
      FabricState(store, failingQueries, queries, log)
    }

    constructor (store: map<string, Message>, failingQueries: set<nat>)
      ensures State() == FabricState(store, failingQueries, [], [])
    {
      this.store := store;
      this.failingQueries := failingQueries;
      this.queries := [];
      this.log := [];
    }

    /** Queries the single persisted message at `uri`; the query is logged. */
    method QueryOne(uri: string) returns (r: QueryResult)
      modifies this
      ensures r == QueryAnswer(old(State()), uri)
      ensures State() == old(State()).(queries := old(queries) + [uri])
    {
      if |queries| in failingQueries {
        r := QueryError;
      } else if uri in store {
        r := Answer(Some(store[uri]));
      } else {
        r := Answer(None);
      }
      queries := queries + [uri];
    }

    /** Publishes `payloads` to `uri`; the call is logged. */
    method Publish(uri: string, payloads: Message, persist: bool)
      modifies this
      ensures State() == PublishState(old(State()), uri, payloads, persist)
    {
      log := log + [Publication(uri, payloads, persist)];
      if persist {
        store := store[uri := payloads];
      }
    }
  }
}
