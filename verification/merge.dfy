/**
 * The startup merge: for every plug, in index order, one reconciliation per
 * key of the plug's own metadata and then one per key of the global
 * metadata, each against `<base>/s.powerup.v0/<idx>/!meta/<key>`. Keys
 * within one map are visited in no fixed order.
 */
module Merge {
  import opened Wrappers
  import opened Fabric
  import opened Addresses
  import opened Metadata

  /** A plug's own metadata. */
  datatype Plug = Plug(meta: map<string, MetaTuple>)

  /** The configuration the merge reads: global metadata, address base, plugs. */
  datatype Config = Config(meta: map<string, MetaTuple>, uriBase: string, plugs: seq<Plug>)

  /** One reconciliation attempt: the plug index, the key and the candidate tuple. */
  datatype Attempt = Attempt(plug: nat, key: string, tuple: MetaTuple)

  function Target(base: string, a: Attempt): string
  {
    MetaAddress(base, a.plug, a.key)
  }

  /** The number of attempts whose timestamp parses: each of those makes exactly one query. */
  function QueryCount(parse: TimeParser, attempts: seq<Attempt>): (r: nat)
    ensures r <= |attempts|
  {
    if attempts == [] then 0
    else QueryCount(parse, attempts[..|attempts| - 1]) + (if parse(attempts[|attempts| - 1].tuple.ts).Some? then 1 else 0)
  }

  /** The fabric after reconciling every attempt in order. */
  function ReconcileAll(s: FabricState, parse: TimeParser, base: string, attempts: seq<Attempt>): (r: FabricState)
    ensures r.failingQueries == s.failingQueries
    ensures |r.queries| == |s.queries| + QueryCount(parse, attempts) && r.queries[..|s.queries|] == s.queries
    ensures |s.log| <= |r.log| <= |s.log| + |attempts| && r.log[..|s.log|] == s.log
    ensures forall k :: |s.log| <= k < |r.log| ==> r.log[k].persist
  {
    if attempts == [] then s
    else
      var last := attempts[|attempts| - 1];
      var before := ReconcileAll(s, parse, base, attempts[..|attempts| - 1]);
      var after := ReconcileStep(before, parse, Target(base, last), last.tuple);
      assert after.log == before.log || after.log == before.log + [after.log[|after.log| - 1]];
      after
  }

  lemma {:induction false} ReconcileAllAppend(s: FabricState, parse: TimeParser, base: string, a: seq<Attempt>, b: seq<Attempt>)
    ensures ReconcileAll(s, parse, base, a + b) == ReconcileAll(ReconcileAll(s, parse, base, a), parse, base, b)
    decreases |b|
  {
    if b == [] {
      assert a + b == a;
    } else {
      var b' := b[..|b| - 1];
      assert (a + b)[..|a + b| - 1] == a + b';
      assert (a + b)[|a + b| - 1] == b[|b| - 1];
      ReconcileAllAppend(s, parse, base, a, b');
    }
  }

  /**
   * Attempt `k` of a run started in state `s` makes a query (its timestamp
   * parses) and that query succeeds.
   */
  predicate Answered(s: FabricState, parse: TimeParser, attempts: seq<Attempt>, k: nat)
    requires k < |attempts|
  {
    && parse(attempts[k].tuple.ts).Some?
    && |s.queries| + QueryCount(parse, attempts[..k]) !in s.failingQueries
  }

  /**
   * `after` is the latest metadata time among the time held before
   * (`init`) and the candidates aimed at address `u` whose own query
   * succeeded, in a run started in state `s`.
   */
  predicate IsLatest(after: Option<int>, init: Option<int>, s: FabricState, parse: TimeParser, base: string, attempts: seq<Attempt>, u: string)
  {
    && (init.Some? ==> after.Some? && after.value >= init.value)
    && (forall k :: 0 <= k < |attempts| && Target(base, attempts[k]) == u && Answered(s, parse, attempts, k) ==>
          after.Some? && after.value >= parse(attempts[k].tuple.ts).value)
    && (after.Some? ==>
          || after == init
          || exists k :: 0 <= k < |attempts| && Target(base, attempts[k]) == u && Answered(s, parse, attempts, k) && parse(attempts[k].tuple.ts) == after)
  }

  /** Extending a run by one attempt leaves the earlier attempts' answers as they were. */
  lemma AnsweredInPrefix(s: FabricState, parse: TimeParser, attempts: seq<Attempt>, k: nat)
    requires k < |attempts| - 1
    ensures Answered(s, parse, attempts, k) == Answered(s, parse, attempts[..|attempts| - 1], k)
  {
    assert attempts[..k] == attempts[..|attempts| - 1][..k];
  }

  /**
   * One more attempt keeps the freshness statement: the time becomes the
   * later of the two when the last attempt is aimed at `u` and answered,
   * and stays otherwise.
   */
  lemma IsLatestStep(mid: Option<int>, after: Option<int>, init: Option<int>, s: FabricState, parse: TimeParser, base: string, attempts: seq<Attempt>, u: string)
    requires |attempts| > 0
    requires IsLatest(mid, init, s, parse, base, attempts[..|attempts| - 1], u)
    requires var n := |attempts| - 1;
      if Target(base, attempts[n]) == u && Answered(s, parse, attempts, n)
      then after == MaxOpt(mid, parse(attempts[n].tuple.ts))
      else after == mid
    ensures IsLatest(after, init, s, parse, base, attempts, u)
  {
    var n := |attempts| - 1;
    var prefix := attempts[..n];
    forall k | 0 <= k < |attempts| && Target(base, attempts[k]) == u && Answered(s, parse, attempts, k)
      ensures after.Some? && after.value >= parse(attempts[k].tuple.ts).value
    {
      if k < n {
        AnsweredInPrefix(s, parse, attempts, k);
        assert attempts[k] == prefix[k];
      }
    }
    if after.Some? && after != init {
      if after == mid {
        var k :| 0 <= k < |prefix| && Target(base, prefix[k]) == u && Answered(s, parse, prefix, k) && parse(prefix[k].tuple.ts) == after;
        AnsweredInPrefix(s, parse, attempts, k);
        assert attempts[k] == prefix[k];
      } else {
        assert Target(base, attempts[n]) == u && Answered(s, parse, attempts, n) && parse(attempts[n].tuple.ts) == after;
      }
    }
  }

  /**
   * Freshness: after a run of reconciliations, every address holds the
   * latest time among what it held and the candidates aimed at it whose
   * query succeeded; an address none of whose candidates got an answer is
   * left as it was.
   */
  lemma {:induction false} ReconcileAllKeepsLatest(s: FabricState, parse: TimeParser, base: string, attempts: seq<Attempt>, u: string)
    ensures IsLatest(ExistingTime(ReconcileAll(s, parse, base, attempts).store, u), ExistingTime(s.store, u), s, parse, base, attempts, u)
  {
    if attempts != [] {
      var n := |attempts| - 1;
      var prefix := attempts[..n];
      var last := attempts[n];
      var before := ReconcileAll(s, parse, base, prefix);
      ReconcileAllKeepsLatest(s, parse, base, prefix, u);
      ReconcileStepTime(before, parse, Target(base, last), last.tuple, u);
      assert Answered(s, parse, attempts, n) <==>
        parse(last.tuple.ts).Some? && |before.queries| !in before.failingQueries;
      IsLatestStep(ExistingTime(before.store, u), ExistingTime(ReconcileAll(s, parse, base, attempts).store, u),
                   ExistingTime(s.store, u), s, parse, base, attempts, u);
    }
  }

  // ---------------------------------------------------------------------
  // The order of attempts

  function KeysOf(part: seq<Attempt>): set<string>
  {
    set k | 0 <= k < |part| :: part[k].key
  }

  /**
   * `part` visits every key of `m` exactly once, for plug `idx`, with the
   * tuple `m` holds for that key.
   */
  predicate Enumerates(part: seq<Attempt>, idx: nat, m: map<string, MetaTuple>)
  {
    && (forall k :: 0 <= k < |part| ==> part[k].plug == idx && part[k].key in m && part[k].tuple == m[part[k].key])
    && (forall k, l :: 0 <= k < l < |part| ==> part[k].key != part[l].key)
    && KeysOf(part) == m.Keys
  }

  lemma {:induction false} DistinctKeysCount(part: seq<Attempt>)
    requires forall k, l :: 0 <= k < l < |part| ==> part[k].key != part[l].key
    ensures |KeysOf(part)| == |part|
  {
    if part != [] {
      var n := |part| - 1;
      assert KeysOf(part) == KeysOf(part[..n]) + {part[n].key};
      assert part[n].key !in KeysOf(part[..n]);
      DistinctKeysCount(part[..n]);
    }
  }

  /** An enumeration of a map has one attempt per key. */
  lemma EnumeratesLength(part: seq<Attempt>, idx: nat, m: map<string, MetaTuple>)
    requires Enumerates(part, idx, m)
    ensures |part| == |m|
  {
    DistinctKeysCount(part);
  }

  /** The attempts made for one plug: its own keys, then the global keys. */
  datatype PlugRun = PlugRun(local: seq<Attempt>, global: seq<Attempt>)

  /** The attempts of a merge in the order they are made. */
  function Flatten(runs: seq<PlugRun>): (r: seq<Attempt>)
  {
    if runs == [] then []
    else Flatten(runs[..|runs| - 1]) + runs[|runs| - 1].local + runs[|runs| - 1].global
  }

  /**
   * The runs of a merge over `plugs`: one per plug, in index order, each
   * enumerating the plug's own metadata and then the global metadata.
   */
  predicate MergeOrder(runs: seq<PlugRun>, plugs: seq<Plug>, global: map<string, MetaTuple>)
  {
    && |runs| == |plugs|
    && forall i :: 0 <= i < |runs| ==>
         Enumerates(runs[i].local, i, plugs[i].meta) && Enumerates(runs[i].global, i, global)
  }

  lemma MergeOrderPrefix(runs: seq<PlugRun>, plugs: seq<Plug>, global: map<string, MetaTuple>)
    requires runs != [] && MergeOrder(runs, plugs, global)
    ensures MergeOrder(runs[..|runs| - 1], plugs[..|plugs| - 1], global)
  {
    var n := |runs| - 1;
    forall i | 0 <= i < n
      ensures Enumerates(runs[..n][i].local, i, plugs[..n][i].meta) && Enumerates(runs[..n][i].global, i, global)
    {
      assert runs[..n][i] == runs[i] && plugs[..n][i] == plugs[i];
    }
  }

  /** The number of reconciliations a merge makes: per plug, its keys plus the global keys. */
  function TotalAttempts(plugs: seq<Plug>, global: map<string, MetaTuple>): nat
  {
    if plugs == [] then 0 else TotalAttempts(plugs[..|plugs| - 1], global) + |plugs[|plugs| - 1].meta| + |global|
  }

  lemma {:induction false} MergeAttemptCount(runs: seq<PlugRun>, plugs: seq<Plug>, global: map<string, MetaTuple>)
    requires MergeOrder(runs, plugs, global)
    ensures |Flatten(runs)| == TotalAttempts(plugs, global)
    decreases |runs|
  {
    if runs != [] {
      var n := |runs| - 1;
      MergeOrderPrefix(runs, plugs, global);
      MergeAttemptCount(runs[..n], plugs[..n], global);
      EnumeratesLength(runs[n].local, n, plugs[n].meta);
      EnumeratesLength(runs[n].global, n, global);
    }
  }

  /** Attempt `a` is for an existing plug, with that plug's tuple or the global tuple for its key. */
  predicate FromConfig(a: Attempt, plugs: seq<Plug>, global: map<string, MetaTuple>)
  {
    && a.plug < |plugs|
    && ((a.key in plugs[a.plug].meta && a.tuple == plugs[a.plug].meta[a.key])
        || (a.key in global && a.tuple == global[a.key]))
  }

  /** Every attempt of a merge comes from the configuration. */
  lemma {:induction false} MergeAttemptsFromConfig(runs: seq<PlugRun>, plugs: seq<Plug>, global: map<string, MetaTuple>)
    requires MergeOrder(runs, plugs, global)
    ensures forall a :: a in Flatten(runs) ==> FromConfig(a, plugs, global)
    decreases |runs|
  {
    if runs != [] {
      var n := |runs| - 1;
      MergeOrderPrefix(runs, plugs, global);
      MergeAttemptsFromConfig(runs[..n], plugs[..n], global);
      forall a | a in Flatten(runs) ensures FromConfig(a, plugs, global) {
        if a in Flatten(runs[..n]) {
          assert FromConfig(a, plugs[..n], global);
          assert plugs[..n][a.plug] == plugs[a.plug];
        } else if a in runs[n].local {
          var k :| 0 <= k < |runs[n].local| && runs[n].local[k] == a;
        } else {
          assert a in runs[n].global;
          var k :| 0 <= k < |runs[n].global| && runs[n].global[k] == a;
        }
      }
    }
  }

  /** What a plug's run holds is part of the whole merge. */
  lemma {:induction false} RunInFlatten(runs: seq<PlugRun>, i: nat)
    requires i < |runs|
    ensures forall a :: a in runs[i].local || a in runs[i].global ==> a in Flatten(runs)
    decreases |runs|
  {
    var n := |runs| - 1;
    if i < n {
      RunInFlatten(runs[..n], i);
      assert runs[..n][i] == runs[i];
    }
  }

  /**
   * Every key of a plug's own metadata is attempted for that plug with its
   * tuple, and every global key is attempted for every plug with the global
   * tuple.
   */
  lemma MergeCovers(runs: seq<PlugRun>, plugs: seq<Plug>, global: map<string, MetaTuple>, idx: nat, key: string)
    requires MergeOrder(runs, plugs, global) && idx < |plugs|
    ensures key in plugs[idx].meta ==> Attempt(idx, key, plugs[idx].meta[key]) in Flatten(runs)
    ensures key in global ==> Attempt(idx, key, global[key]) in Flatten(runs)
  {
    RunInFlatten(runs, idx);
    if key in plugs[idx].meta {
      assert key in KeysOf(runs[idx].local);
    }
    if key in global {
      assert key in KeysOf(runs[idx].global);
    }
  }

  /** A member of an enumeration of `m` for plug `idx` carries `m`'s tuple for its key. */
  lemma EnumeratedMember(part: seq<Attempt>, idx: nat, m: map<string, MetaTuple>, a: Attempt)
    requires Enumerates(part, idx, m) && a in part
    ensures a.plug == idx && a.key in m && a.tuple == m[a.key]
  {
    var k :| 0 <= k < |part| && part[k] == a;
  }

  /** Run `i` of a merge sits in the attempt order right after the runs before it. */
  lemma {:induction false} FlattenAt(runs: seq<PlugRun>, i: nat, j: nat)
    requires i < |runs| && j < |runs[i].local + runs[i].global|
    ensures |Flatten(runs[..i])| + j < |Flatten(runs)|
    ensures Flatten(runs)[|Flatten(runs[..i])| + j] == (runs[i].local + runs[i].global)[j]
    decreases |runs|
  {
    var n := |runs| - 1;
    if i < n {
      FlattenAt(runs[..n], i, j);
      assert runs[..n][..i] == runs[..i] && runs[..n][i] == runs[i];
    } else {
      assert runs[..i] == runs[..n];
    }
  }

  /** An enumeration of `m` for plug `idx` visits each key of `m` with its tuple. */
  lemma KeyPosition(part: seq<Attempt>, idx: nat, m: map<string, MetaTuple>, key: string)
    requires Enumerates(part, idx, m) && key in m
    ensures exists j :: 0 <= j < |part| && part[j] == Attempt(idx, key, m[key])
  {
    assert key in KeysOf(part);
    var j :| 0 <= j < |part| && part[j].key == key;
    assert part[j] == Attempt(idx, key, m[key]);
  }

  lemma FlattenAtLocal(runs: seq<PlugRun>, i: nat, j: nat)
    requires i < |runs| && j < |runs[i].local|
    ensures |Flatten(runs[..i])| + j < |Flatten(runs)|
    ensures Flatten(runs)[|Flatten(runs[..i])| + j] == runs[i].local[j]
  {
    FlattenAt(runs, i, j);
  }

  lemma FlattenAtGlobal(runs: seq<PlugRun>, i: nat, j: nat)
    requires i < |runs| && j < |runs[i].global|
    ensures |Flatten(runs[..i])| + |runs[i].local| + j < |Flatten(runs)|
    ensures Flatten(runs)[|Flatten(runs[..i])| + |runs[i].local| + j] == runs[i].global[j]
  {
    FlattenAt(runs, i, |runs[i].local| + j);
  }

  /** Within a plug's run, every attempt of its own keys comes before every attempt of the global keys. */
  lemma LocalBeforeGlobal(runs: seq<PlugRun>, i: nat, j1: nat, j2: nat)
    requires i < |runs| && j1 < |runs[i].local| && j2 < |runs[i].global|
    ensures exists k, l ::
      && 0 <= k < l < |Flatten(runs)|
      && Flatten(runs)[k] == runs[i].local[j1]
      && Flatten(runs)[l] == runs[i].global[j2]
  {
    FlattenAtLocal(runs, i, j1);
    FlattenAtGlobal(runs, i, j2);
    var o := |Flatten(runs[..i])|;
    assert o + j1 < o + |runs[i].local| + j2;
  }

  /**
   * Two positions of a merge's attempt order share a target only when they
   * are for the same plug and key, the key is in both the plug's own
   * metadata and the global metadata, and the earlier one carries the
   * plug's tuple and the later one the global tuple.
   */
  lemma {:induction false} SharedTargetOnlyForSharedKey(base: string, runs: seq<PlugRun>, plugs: seq<Plug>, global: map<string, MetaTuple>,
                                                        k: nat, l: nat)
    requires MergeOrder(runs, plugs, global) && k < l < |Flatten(runs)|
    requires Target(base, Flatten(runs)[k]) == Target(base, Flatten(runs)[l])
    ensures var a, b := Flatten(runs)[k], Flatten(runs)[l];
      && a.plug == b.plug < |plugs| && a.key == b.key
      && a.key in plugs[a.plug].meta && a.key in global
      && a.tuple == plugs[a.plug].meta[a.key] && b.tuple == global[a.key]
    decreases |runs|
  {
    var n := |runs| - 1;
    var P, L, G := Flatten(runs[..n]), runs[n].local, runs[n].global;
    var a, b := Flatten(runs)[k], Flatten(runs)[l];
    assert Flatten(runs) == P + L + G;
    MergeOrderPrefix(runs, plugs, global);
    if l < |P| {
      assert a == P[k] && b == P[l];
      SharedTargetOnlyForSharedKey(base, runs[..n], plugs[..n], global, k, l);
      assert plugs[..n][a.plug] == plugs[a.plug];
    } else {
      var kIn := if k < |P| then 0 else if k < |P| + |L| then 1 else 2;
      var lInL := l < |P| + |L|;
      if kIn == 0 {
        assert a == P[k] && a in Flatten(runs[..n]);
        MergeAttemptsFromConfig(runs[..n], plugs[..n], global);
      } else if kIn == 1 {
        assert a == L[k - |P|] && a in L;
        EnumeratedMember(L, n, plugs[n].meta, a);
      } else {
        assert a == G[k - |P| - |L|] && a in G;
        EnumeratedMember(G, n, global, a);
      }
      if lInL {
        assert b == L[l - |P|] && b in L;
        EnumeratedMember(L, n, plugs[n].meta, b);
      } else {
        assert b == G[l - |P| - |L|] && b in G;
        EnumeratedMember(G, n, global, b);
      }
      assert kIn == 0 ==> a.plug < n;
      assert kIn == 1 && lInL ==> L[k - |P|].key != L[l - |P|].key;
      assert kIn == 2 ==> G[k - |P| - |L|].key != G[l - |P| - |L|].key;
      MetaAddressInjective(base, a.plug, a.key, b.plug, b.key);
    }
  }

  /**
   * Conversely, a key in both a plug's own metadata and the global metadata
   * is attempted twice at the same address for that plug: first with the
   * plug's tuple, later with the global tuple.
   */
  lemma SharedKeyAttemptedTwice(base: string, runs: seq<PlugRun>, plugs: seq<Plug>, global: map<string, MetaTuple>,
                                idx: nat, key: string)
    requires MergeOrder(runs, plugs, global) && idx < |plugs| && key in plugs[idx].meta && key in global
    ensures exists k, l ::
      && 0 <= k < l < |Flatten(runs)|
      && Flatten(runs)[k] == Attempt(idx, key, plugs[idx].meta[key])
      && Flatten(runs)[l] == Attempt(idx, key, global[key])
      && Target(base, Flatten(runs)[k]) == Target(base, Flatten(runs)[l])
  {
    var L, G := runs[idx].local, runs[idx].global;
    KeyPosition(L, idx, plugs[idx].meta, key);
    KeyPosition(G, idx, global, key);
    var j1 :| 0 <= j1 < |L| && L[j1] == Attempt(idx, key, plugs[idx].meta[key]);
    var j2 :| 0 <= j2 < |G| && G[j2] == Attempt(idx, key, global[key]);
    LocalBeforeGlobal(runs, idx, j1, j2);
  }

  lemma KeysOfAppend(part: seq<Attempt>, a: Attempt)
    ensures KeysOf(part + [a]) == KeysOf(part) + {a.key}
  {
    var ext := part + [a];
    assert ext[|part|].key == a.key;
    forall key | key in KeysOf(part) ensures key in KeysOf(ext) {
      var k :| 0 <= k < |part| && part[k].key == key;
      assert ext[k] == part[k];
    }
  }

  lemma ReconcileAllSnoc(s: FabricState, parse: TimeParser, base: string, part: seq<Attempt>, a: Attempt)
    ensures ReconcileAll(s, parse, base, part + [a])
         == ReconcileStep(ReconcileAll(s, parse, base, part), parse, Target(base, a), a.tuple)
  {
    assert (part + [a])[..|part|] == part;
  }

  /** `part` enumerates the keys of `m` outside `rest`, for plug `idx`. */
  predicate EnumeratesExcept(part: seq<Attempt>, idx: nat, m: map<string, MetaTuple>, rest: set<string>)
  {
    && (forall k :: 0 <= k < |part| ==> part[k].plug == idx && part[k].key in m && part[k].tuple == m[part[k].key])
    && (forall k, l :: 0 <= k < l < |part| ==> part[k].key != part[l].key)
    && KeysOf(part) !! rest && KeysOf(part) + rest == m.Keys
  }

  lemma EnumeratesExceptStep(part: seq<Attempt>, idx: nat, m: map<string, MetaTuple>, rest: set<string>, key: string)
    requires EnumeratesExcept(part, idx, m, rest) && key in rest
    ensures EnumeratesExcept(part + [Attempt(idx, key, m[key])], idx, m, rest - {key})
  {
    assert forall k :: 0 <= k < |part| ==> part[k].key in KeysOf(part);
    KeysOfAppend(part, Attempt(idx, key, m[key]));
  }

  /** Reconciles every key of one map for plug `idx` (one inner loop of the merge). */
  method ReconcileMap(client: Client, parse: TimeParser, base: string, idx: nat, m: map<string, MetaTuple>)
    returns (part: seq<Attempt>)
    modifies client
    ensures Enumerates(part, idx, m)
    ensures client.State() == ReconcileAll(old(client.State()), parse, base, part)
  {
    ghost var s0 := client.State();
    part := [];
    var rest := m.Keys;
    while rest != {}
      invariant EnumeratesExcept(part, idx, m, rest)
      invariant client.State() == ReconcileAll(s0, parse, base, part)
      decreases rest
    {
      var key :| key in rest;
      Reconcile(client, parse, MetaAddress(base, idx, key), m[key]);
      EnumeratesExceptStep(part, idx, m, rest, key);
      ReconcileAllSnoc(s0, parse, base, part, Attempt(idx, key, m[key]));
      part := part + [Attempt(idx, key, m[key])];
      rest := rest - {key};
    }
  }

  lemma FlattenAppend(runs: seq<PlugRun>, run: PlugRun)
    ensures Flatten(runs + [run]) == Flatten(runs) + (run.local + run.global)
  {
    assert (runs + [run])[..|runs|] == runs;
    assert Flatten(runs) + run.local + run.global == Flatten(runs) + (run.local + run.global);
  }

  /** Adding the run of the next plug extends a merge by that plug. */
  lemma MergeOrderExtend(runs: seq<PlugRun>, plugs: seq<Plug>, global: map<string, MetaTuple>, idx: nat, run: PlugRun)
    requires idx < |plugs| && MergeOrder(runs, plugs[..idx], global)
    requires Enumerates(run.local, idx, plugs[idx].meta) && Enumerates(run.global, idx, global)
    ensures MergeOrder(runs + [run], plugs[..idx + 1], global)
  {
    var ext, ps := runs + [run], plugs[..idx + 1];
    forall i | 0 <= i < |ext|
      ensures Enumerates(ext[i].local, i, ps[i].meta) && Enumerates(ext[i].global, i, global)
    {
      if i < idx {
        assert ext[i] == runs[i] && ps[i] == plugs[..idx][i];
      } else {
        assert ext[i] == run && ps[i] == plugs[idx];
      }
    }
  }

  /** The two inner loops for plug `idx`: its own keys, then the global keys. */
  method ReconcilePlug(client: Client, parse: TimeParser, base: string, idx: nat,
                       own: map<string, MetaTuple>, global: map<string, MetaTuple>) returns (run: PlugRun)
    modifies client
    ensures Enumerates(run.local, idx, own) && Enumerates(run.global, idx, global)
    ensures client.State() == ReconcileAll(old(client.State()), parse, base, run.local + run.global)
  {
    ghost var s0 := client.State();
    var local := ReconcileMap(client, parse, base, idx, own);
    var glob := ReconcileMap(client, parse, base, idx, global);
    ReconcileAllAppend(s0, parse, base, local, glob);
    run := PlugRun(local, glob);
  }

  /** The startup merge over every plug. */
  method MergeMetadata(client: Client, parse: TimeParser, config: Config) returns (runs: seq<PlugRun>)
    modifies client
    ensures MergeOrder(runs, config.plugs, config.meta)
    ensures client.State() == ReconcileAll(old(client.State()), parse, config.uriBase, Flatten(runs))
  {
    ghost var s0 := client.State();
    runs := [];
    for idx := 0 to |config.plugs|
      invariant MergeOrder(runs, config.plugs[..idx], config.meta)
      invariant client.State() == ReconcileAll(s0, parse, config.uriBase, Flatten(runs))
    {
      var run := ReconcilePlug(client, parse, config.uriBase, idx, config.plugs[idx].meta, config.meta);
      ReconcileAllAppend(s0, parse, config.uriBase, Flatten(runs), run.local + run.global);
      MergeOrderExtend(runs, config.plugs, config.meta, idx, run);
      FlattenAppend(runs, run);
      runs := runs + [run];
    }
    assert config.plugs[..|config.plugs|] == config.plugs;
  }
}
