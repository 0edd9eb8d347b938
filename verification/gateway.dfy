/**
 * Start-up of the gateway: the metadata merge runs to completion first,
 * then the relay bank is initialised, then one dispatcher subscription is
 * made per dispatched slot.
 */
module Gateway {
  import opened Fabric
  import opened Addresses
  import opened Metadata
  import opened Merge
  import opened Relays

  method Startup(client: Client, parse: TimeParser, config: Config)
    returns (runs: seq<PlugRun>, bank: RelayBank, subs: seq<Subscription>)
    modifies client
    ensures MergeOrder(runs, config.plugs, config.meta)
    ensures client.State() == ReconcileAll(old(client.State()), parse, config.uriBase, Flatten(runs))
    ensures fresh(bank) && fresh(bank.relays) && bank.Valid()
    ensures forall k :: 0 <= k < bank.relays.Length ==> bank.relays[k] == DigitalPin(RelayPins[k], Out, Low)
    ensures |subs| == DispatcherCount < bank.relays.Length
    ensures forall k :: 0 <= k < |subs| ==> subs[k] == Subscription(k, SlotAddress(config.uriBase, k), SignalAddress(config.uriBase, k))
  {
    runs := MergeMetadata(client, parse, config);
    bank := new RelayBank.Init();
    subs := Subscriptions(config.uriBase);
  }
}
