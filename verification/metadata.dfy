/**
 * Metadata freshness reconciliation: a configured (value, timestamp-text)
 * tuple is published to a metadata address only when nothing usable is
 * there yet or when it is strictly newer than what is there.
 */
module Metadata {
  import opened Wrappers
  import opened Fabric

  /** A configured metadata tuple: a value and its timestamp as text. */
  datatype MetaTuple = MetaTuple(val: string, ts: string)

  /**
   * Parsing of timestamp text under the gateway's fixed layout, to Unix
   * nanoseconds; None when the text does not parse.
   */
  type TimeParser = string -> Option<int>

  /**
   * Whether the tuple's time is strictly after `t`; an unparsable
   * timestamp is never newer than anything.
   */
  function NewerThan(mt: MetaTuple, t: int, parse: TimeParser): (r: bool)
    ensures parse(mt.ts).None? ==> !r
    ensures parse(mt.ts).Some? ==> (r <==> parse(mt.ts).value > t)
  {
    match parse(mt.ts)
    case None => false
    case Some(mttime) => mttime > t
  }

  /** Equal times are not newer: a tuple is never newer than its own time. */
  lemma NotNewerThanItself(mt: MetaTuple, parse: TimeParser)
    requires parse(mt.ts).Some?
    ensures !NewerThan(mt, parse(mt.ts).value, parse)
  {
  }

  /**
   * The time of the metadata tuple held at `uri`, when the persisted
   * message there carries a metadata payload object.
   */
  function ExistingTime(store: map<string, Message>, uri: string): (r: Option<int>)
    ensures r.Some? <==> uri in store && GetOne(store[uri], MetadataKind).Some?
    ensures r.Some? ==> GetOne(store[uri], MetadataKind) == Some(MetadataPO(GetOne(store[uri], MetadataKind).value.value, r.value))
  {
    if uri !in store then None
    else match GetOne(store[uri], MetadataKind)
      case Some(MetadataPO(_, ts)) => Some(ts)
      case _ => None
  }

  /**
   * The effect of one reconciliation of `mt` against `tgt` on the fabric:
   * the specification of the Reconcile method.
   */
  function ReconcileStep(s: FabricState, parse: TimeParser, tgt: string, mt: MetaTuple): (r: FabricState)
    ensures r.failingQueries == s.failingQueries
    ensures r.queries == if parse(mt.ts).Some? then s.queries + [tgt] else s.queries
    ensures r.log == s.log || (parse(mt.ts).Some? && r.log == s.log + [Publication(tgt, [MetadataPO(mt.val, parse(mt.ts).value)], true)])
    ensures forall u :: u != tgt ==> (u in r.store <==> u in s.store)
    ensures forall u :: u in s.store && u != tgt ==> r.store[u] == s.store[u]
  {
    match parse(mt.ts)
    case None => s
    case Some(mttime) =>
      var queried := s.(queries := s.queries + [tgt]);
      match QueryAnswer(s, tgt)
      case QueryError => queried
      case Answer(existing) =>
        var e := ExistingTime(s.store, tgt);
        if existing.Some? && e.Some? && !NewerThan(mt, e.value, parse) then queried
        else PublishState(queried, tgt, [MetadataPO(mt.val, mttime)], true)
  }

  /** One reconciliation (the body of the gateway's per-pair closure), against the live client. */
  method Reconcile(client: Client, parse: TimeParser, tgt: string, mt: MetaTuple)
    modifies client
    ensures client.State() == ReconcileStep(old(client.State()), parse, tgt, mt)
  {
    var parsed := parse(mt.ts);
    if parsed.None? {
      return;
    }
    var mttime := parsed.value;
    var exMetadata := client.QueryOne(tgt);
    if exMetadata.QueryError? {
      return;
    }
    if exMetadata.existing.Some? {
      var entry := GetOne(exMetadata.existing.value, MetadataKind);
      if entry.Some? && entry.value.MetadataPO? {
        if !NewerThan(mt, entry.value.timestamp, parse) {
          return;
        }
      }
    }
    client.Publish(tgt, [MetadataPO(mt.val, mttime)], true);
  }

  // ---------------------------------------------------------------------
  // The outcomes of one reconciliation

  /** A candidate whose timestamp does not parse causes neither a query nor a publish. */
  lemma BadTimestampIsInert(s: FabricState, parse: TimeParser, tgt: string, mt: MetaTuple)
    requires parse(mt.ts).None?
    ensures ReconcileStep(s, parse, tgt, mt) == s
  {
  }

  /** A failed query for the target ends the reconciliation after the query, with no publish. */
  lemma QueryErrorSkipsPublish(s: FabricState, parse: TimeParser, tgt: string, mt: MetaTuple)
    requires parse(mt.ts).Some? && |s.queries| in s.failingQueries
    ensures ReconcileStep(s, parse, tgt, mt) == s.(queries := s.queries + [tgt])
  {
  }

  /** No downgrade: an existing tuple at the same time or later blocks the publish. */
  lemma NoDowngrade(s: FabricState, parse: TimeParser, tgt: string, mt: MetaTuple)
    requires parse(mt.ts).Some? && |s.queries| !in s.failingQueries
    requires ExistingTime(s.store, tgt).Some? && parse(mt.ts).value <= ExistingTime(s.store, tgt).value
    ensures ReconcileStep(s, parse, tgt, mt) == s.(queries := s.queries + [tgt])
  {
  }

  /**
   * A candidate strictly newer than the existing tuple, or one facing no
   * tuple at all (nothing persisted, or a message without a metadata
   * payload object), is published exactly once, persisted, with its value
   * and its parsed time in nanoseconds; the store then holds it.
   */
  lemma NewerOrUncontestedIsPublished(s: FabricState, parse: TimeParser, tgt: string, mt: MetaTuple)
    requires parse(mt.ts).Some? && |s.queries| !in s.failingQueries
    requires ExistingTime(s.store, tgt).None? || parse(mt.ts).value > ExistingTime(s.store, tgt).value
    ensures var r := ReconcileStep(s, parse, tgt, mt);
      && r.queries == s.queries + [tgt]
      && r.log == s.log + [Publication(tgt, [MetadataPO(mt.val, parse(mt.ts).value)], true)]
      && r.store == s.store[tgt := [MetadataPO(mt.val, parse(mt.ts).value)]]
  {
  }

  /**
   * The metadata time at any address after one reconciliation: at the
   * target, when its query succeeds, it becomes the later of the old time and the
   * candidate's; everywhere else it is unchanged.
   */
  lemma ReconcileStepTime(s: FabricState, parse: TimeParser, tgt: string, mt: MetaTuple, u: string)
    ensures var after := ExistingTime(ReconcileStep(s, parse, tgt, mt).store, u);
      if u == tgt && |s.queries| !in s.failingQueries && parse(mt.ts).Some? then
        after == MaxOpt(ExistingTime(s.store, u), parse(mt.ts))
      else
        after == ExistingTime(s.store, u)
  {
  }
}
