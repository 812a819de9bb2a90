/** beacon.js: the `Beacon` monitor as a class whose methods update its fields, the checks of
    `BeaconConfig`, and the `send` gate as written. The methods are proved against the
    definitions of beacon_spec.dfy. */
module Beacon {
  import opened Values
  import opened Utils
  import opened BeaconSpec

  /** The three `type` calls of `new BeaconConfig(options)`: `nodes` and `subscribers` must be
      arrays, `emailer` of typeof "object" (null passes), `interval` a number; the first failing
      check throws its TypeError. */
  function CheckOptions(options: JsVal): (r: Result<()>)
    ensures r.Ok? <==> Truthy(options) && IsArray(Get(options, "nodes")) && IsArray(Get(options, "subscribers"))
                       && TypeOf(Get(options, "emailer")) == "object" && TypeOf(Get(options, "interval")) == "number"
    ensures !Truthy(options) ==> r == Err(TypeError(NoOptions))
    ensures Truthy(options) && !IsArray(Get(options, "nodes")) ==>
              r == Err(TypeError(TypeMessage("nodes", "array")))
    ensures Truthy(options) && IsArray(Get(options, "nodes")) && !IsArray(Get(options, "subscribers")) ==>
              r == Err(TypeError(TypeMessage("subscribers", "array")))
    ensures Truthy(options) && IsArray(Get(options, "nodes")) && IsArray(Get(options, "subscribers"))
            && TypeOf(Get(options, "emailer")) != "object" ==>
              r == Err(TypeError(TypeMessage("emailer", "object")))
    ensures Truthy(options) && IsArray(Get(options, "nodes")) && IsArray(Get(options, "subscribers"))
            && TypeOf(Get(options, "emailer")) == "object" && TypeOf(Get(options, "interval")) != "number" ==>
              r == Err(TypeError(TypeMessage("interval", "number")))
  {
    var lists := ["nodes", "subscribers"];
    assert lists[0] == "nodes" && lists[1..] == ["subscribers"];
    TypeOne(options, "subscribers", "array");
    TypeOne(options, "emailer", "object");
    TypeOne(options, "interval", "number");
    var _ :- Type(options, lists, "array");
    var _ :- Type(options, ["emailer"], "object");
    Type(options, ["interval"], "number")
  }

  /** The chain-state monitor. `name` is the package name used in subject lines, `nodes` the
      names of the configured nodes in list order, `subscribers` the addresses mailed. */
  class Beacon {
    const name: string
    const nodes: seq<string>
    const subscribers: seq<string>

    /** `this.results`: the values, and the order in which `for…in` enumerates their names. */
    var results: map<string, JsVal>
    var order: seq<string>

    /** The fingerprint of the last notification sent, `null` at first. */
    var lastSend: Option<Fingerprint>
    var bestHeight: int
    /** `null` until the first new-block notice. */
    var bestBlock: Option<string>

    /** Every call of the emailer's `send`, in order. */
    ghost var outbox: seq<Email>

    ghost predicate Valid()
      reads this`results, this`order, this`bestHeight, this`bestBlock
    {
      && WellFormed(Snapshot())
      && bestHeight >= 0
      && (bestBlock.None? <==> bestHeight == 0)
    }

    function Snapshot(): Store
      reads this`results, this`order
    {
      Store(order, results)
    }

    constructor(name: string, nodes: seq<string>, subscribers: seq<string>)
      ensures Valid()
      ensures this.name == name && this.nodes == nodes && this.subscribers == subscribers
      ensures Snapshot() == Store([], map[]) && lastSend == None
      ensures bestHeight == 0 && bestBlock == None && outbox == []
    {
      this.name := name;
      this.nodes := nodes;
      this.subscribers := subscribers;
      results := map[];
      order := [];
      lastSend := None;
      bestHeight := 0;
      bestBlock := None;
      outbox := [];
    }

    /** `send(subject)` with the fingerprint computed before it is compared: nothing happens when
        it equals `lastSend`; otherwise `lastSend` takes it and every subscriber is mailed. */
    method Send(subject: string)
      requires Valid()
      modifies this`lastSend, this`outbox
      ensures Valid()
      ensures var (last, sent) := Notify(old(lastSend), name, subscribers, subject, Render(Snapshot()));
              lastSend == last && outbox == old(outbox) + sent
    {
      var text := Render(Snapshot());
      var id := Fingerprint(subject, text);
      if lastSend == Some(id) {
        return;
      }
      lastSend := Some(id);
      var line := SubjectLine(name, subject);
      for i := 0 to |subscribers|
        invariant outbox == old(outbox) + Mails(subscribers[..i], line, text)
      {
        assert subscribers[..i + 1][..i] == subscribers[..i];
        outbox := outbox + [Email(subscribers[i], line, text)];
      }
      assert subscribers[..|subscribers|] == subscribers;
    }

    /** `sync(responses)`: each node's response in list order; a rejected query is skipped, a reply
        stores its `result` under the node's name, a null or undefined reply throws. */
    method Sync(responses: seq<Response>) returns (r: Result<()>)
      requires Valid() && |responses| == |nodes|
      modifies this`results, this`order
      ensures Valid()
      ensures var out := Synced(old(Snapshot()), nodes, responses);
              Snapshot() == out.store && (r.Ok? <==> out.error.None?) && (r.Err? ==> out.error == Some(r.error))
    {
      for i := 0 to |nodes|
        invariant WellFormed(Snapshot())
        invariant Synced(Snapshot(), nodes[i..], responses[i..]) == Synced(old(Snapshot()), nodes, responses)
      {
        assert nodes[i..][1..] == nodes[i + 1..] && responses[i..][1..] == responses[i + 1..];
        match responses[i]
        case Failed =>
        case Replied(info) =>
          if Nullish(info) {
            return Err(ResultReadError(info));
          }
          AssignWellFormed(Snapshot(), nodes[i], Get(info, "result"));
          if nodes[i] !in results {
            order := order + [nodes[i]];
          }
          results := results[nodes[i] := Get(info, "result")];
      }
      r := Ok(());
    }

    /** `checkHeights()`: the stored heights pushed in store order, then `[low, high]` of the
        ascending order. */
    method CheckHeights() returns (r: Result<Option<(int, int)>>)
      requires Valid()
      ensures r == HeightExtent(Stored(Snapshot()))
    {
      ghost var vs := Stored(Snapshot());
      var heights: seq<int> := [];
      for i := 0 to |order|
        invariant Heights(vs[..i]) == Ok(heights)
      {
        assert vs[i] == results[order[i]];
        var h := HeightOf(results[order[i]]);
        if h.Err? {
          assert forall j :: 0 <= j < i ==> vs[..i][j] == vs[j];
          CollectMeaning(HeightOf, vs[..i]);
          CollectFirstErr(HeightOf, vs, i);
          return Err(h.error);
        }
        CollectSnoc(HeightOf, vs, i);
        heights := heights + [h.value];
      }
      assert vs[..|order|] == vs;
      assert Heights(vs) == Ok(heights);
      if heights == [] {
        return Ok(None);
      }
      return Ok(Some((Min(heights), Max(heights))));
    }

    /** `checkFork()`: buckets the checked results by height while tracking the greatest height,
        sets `fork` from each bucket, then picks the best block from the best height's bucket. */
    method CheckFork() returns (r: Result<Report>)
      requires Valid()
      ensures r == ForkReport(Stored(Snapshot()))
    {
      var grouped, heights, keys, bestHeight := GroupResults();
      if grouped.Err? {
        return Err(grouped.error);
      }
      var fork := ForkOf(heights, keys);
      if bestHeight !in heights {
        return Err(NotIterable);
      }
      var bestBlock := BestBlockOf(heights[bestHeight]);
      return Ok(Report(fork, bestHeight, bestBlock));
    }

    /** The first loop of `checkFork`: checks each stored result in store order, appends its hash
        to the bucket of its height and raises the local `bestHeight` to its height. `keys` lists
        the heights in the order `for…in` enumerates them, taken here as first appearance. */
    method GroupResults() returns (r: Result<()>, heights: map<int, seq<string>>, keys: seq<int>, bestHeight: int)
      requires forall i :: 0 <= i < |order| ==> order[i] in results
      ensures r.Ok? <==> Chains(Stored(Snapshot())).Ok?
      ensures r.Err? ==> Chains(Stored(Snapshot())) == Err(r.error)
      ensures r.Ok? ==> heights == Group(Chains(Stored(Snapshot())).value)
                        && bestHeight == TopHeight(Chains(Stored(Snapshot())).value)
      ensures Enumerates(keys, heights)
    {
      ghost var vs := Stored(Snapshot());
      ghost var cs: seq<Chain> := [];
      heights := map[];
      keys := [];
      bestHeight := 0;
      for i := 0 to |order|
        invariant Chains(vs[..i]) == Ok(cs)
        invariant heights == Group(cs) && bestHeight == TopHeight(cs)
        invariant Enumerates(keys, heights)
      {
        var c := ChainOf(results[order[i]]);
        if c.Err? {
          assert Chains(vs) == Err(c.error) by {
            assert vs[i] == results[order[i]];
            assert forall j :: 0 <= j < i ==> vs[..i][j] == vs[j];
            CollectMeaning(ChainOf, vs[..i]);
            CollectFirstErr(ChainOf, vs, i);
          }
          return Err(c.error), heights, keys, bestHeight;
        }
        var chain := c.value;
        assert Chains(vs[..i + 1]) == Ok(cs + [chain]) by {
          assert vs[i] == results[order[i]];
          CollectSnoc(ChainOf, vs, i);
        }
        assert Group(cs + [chain]) == heights[chain.height := Bucket(heights, chain.height) + [chain.hash]]
            && TopHeight(cs + [chain]) == if chain.height > bestHeight then chain.height else bestHeight
        by {
          GroupSnoc(cs, chain);
        }
        heights, keys := Push(heights, keys, chain);
        if chain.height > bestHeight {
          bestHeight := chain.height;
        }
        cs := cs + [chain];
      }
      assert vs[..|order|] == vs;
      r := Ok(());
    }

    /** `lastSend` and the emails sent since (`last0`, `outbox0`) are those of sending the
        `raised` subjects in turn on the store text `text`. */
    ghost predicate Notified(last0: Option<Fingerprint>, outbox0: seq<Email>, raised: seq<string>, text: Body)
      reads this`lastSend, this`outbox
    {
      lastSend == NotifyAll(last0, name, subscribers, raised, text).0
      && outbox == outbox0 + NotifyAll(last0, name, subscribers, raised, text).1
    }

    /** One of `detect`'s `send` calls, with the subjects sent so far in the pass. */
    method Raise(subject: string, ghost last0: Option<Fingerprint>, ghost outbox0: seq<Email>,
                 ghost raised: seq<string>, ghost text: Body)
      requires Valid() && text == Render(Snapshot()) && Notified(last0, outbox0, raised, text)
      modifies this`lastSend, this`outbox
      ensures Valid() && Notified(last0, outbox0, raised + [subject], text)
    {
      Send(subject);
      assert (raised + [subject])[..|raised|] == raised;
    }

    /** One `detect()` pass: `sync`, then, unless it threw, the checks and alerts of `Analyse`. */
    method Detect(responses: seq<Response>) returns (r: Result<()>)
      requires Valid() && |responses| == |nodes|
      modifies this`results, this`order, this`lastSend, this`outbox, this`bestHeight, this`bestBlock
      ensures Valid()
      ensures Snapshot() == Synced(old(Snapshot()), nodes, responses).store
      ensures r.Ok? <==> Synced(old(Snapshot()), nodes, responses).error.None?
                         && HeightExtent(Stored(Snapshot())).Ok? && ForkReport(Stored(Snapshot())).Ok?
      ensures Notified(old(lastSend), old(outbox),
                       Raised(Synced(old(Snapshot()), nodes, responses), old(bestHeight)), Render(Snapshot()))
      ensures match Adopted(Synced(old(Snapshot()), nodes, responses), old(bestHeight))
              case None => bestHeight == old(bestHeight) && bestBlock == old(bestBlock)
              case Some((h, b)) => bestHeight == h && bestBlock == Some(b)
      ensures bestHeight >= old(bestHeight)
    {
      var synced := Sync(responses);
      if synced.Err? {
        return Err(synced.error);
      }
      r := Analyse(Stored(Snapshot()), Render(Snapshot()));
    }

    /** The rest of `detect` on the synced store: the height alert when `high - low > 1`, the fork
        alert when `fork` is set, and, when the best height found is above `this.bestHeight`, the
        raise of `bestHeight` and `bestBlock` with the new-block notice; `checkHeights` or
        `checkFork` throwing ends the pass there. */
    method Analyse(ghost vs: seq<JsVal>, ghost text: Body) returns (r: Result<()>)
      requires Valid() && vs == Stored(Snapshot()) && text == Render(Snapshot())
      modifies this`lastSend, this`outbox, this`bestHeight, this`bestBlock
      ensures Valid()
      ensures r.Ok? <==> HeightExtent(vs).Ok? && ForkReport(vs).Ok?
      ensures Notified(old(lastSend), old(outbox), Alerts(vs, old(bestHeight)), text)
      ensures match NewBest(vs, old(bestHeight))
              case None => bestHeight == old(bestHeight) && bestBlock == old(bestBlock)
              case Some((h, b)) => bestHeight == h && bestBlock == Some(b)
    {
      var extent := CheckHeights();
      if extent.Err? {
        assert Alerts(vs, old(bestHeight)) == [] && NewBest(vs, old(bestHeight)) == None;
        return Err(extent.error);
      }
      ghost var heightAlerts := HeightAlerts(extent.value);
      AlertSkew(extent.value, text);
      var report := CheckFork();
      if report.Err? {
        assert Alerts(vs, old(bestHeight)) == heightAlerts + [] == heightAlerts;
        assert NewBest(vs, old(bestHeight)) == None;
        return Err(report.error);
      }
      assert Alerts(vs, old(bestHeight)) == heightAlerts + ForkAlerts(report, old(bestHeight));
      assert NewBest(vs, old(bestHeight)) ==
        if report.value.bestHeight > old(bestHeight) then Some((report.value.bestHeight, report.value.bestBlock)) else None;
      Announce(report.value, old(lastSend), old(outbox), heightAlerts, text);
      r := Ok(());
    }

    /** The height alert of a pass, sent when the extent of the heights is more than one block. */
    method AlertSkew(extent: Option<(int, int)>, ghost text: Body)
      requires Valid() && text == Render(Snapshot())
      modifies this`lastSend, this`outbox
      ensures Valid() && Notified(old(lastSend), old(outbox), HeightAlerts(extent), text)
    {
      ghost var last0, outbox0 := lastSend, outbox;
      assert outbox == outbox0 + [];
      if Skewed(extent) {
        Raise(HeightAlert, last0, outbox0, [], text);
        assert [] + [HeightAlert] == HeightAlerts(extent);
      }
    }

    /** The end of a pass once `checkFork` returned `rep`: the fork alert when `fork` is set, then,
        when `rep.bestHeight` is above `this.bestHeight`, the raise of `bestHeight` and
        `bestBlock` followed by the new-block notice. */
    method Announce(rep: Report, ghost last0: Option<Fingerprint>, ghost outbox0: seq<Email>,
                    ghost raised: seq<string>, ghost text: Body)
      requires Valid() && text == Render(Snapshot()) && Notified(last0, outbox0, raised, text)
      modifies this`lastSend, this`outbox, this`bestHeight, this`bestBlock
      ensures Valid() && Snapshot() == old(Snapshot())
      ensures Notified(last0, outbox0, raised + ForkAlerts(Ok(rep), old(bestHeight)), text)
      ensures if rep.bestHeight > old(bestHeight) then bestHeight == rep.bestHeight && bestBlock == Some(rep.bestBlock)
              else bestHeight == old(bestHeight) && bestBlock == old(bestBlock)
    {
      ghost var forks := if rep.fork then [ForkAlert] else [];
      ghost var notices := if rep.bestHeight > bestHeight then [HeightNotice] else [];
      if rep.fork {
        Raise(ForkAlert, last0, outbox0, raised, text);
      } else {
        assert raised + forks == raised;
      }
      assert Notified(last0, outbox0, raised + forks, text);
      if rep.bestHeight > bestHeight {
        bestHeight := rep.bestHeight;
        bestBlock := Some(rep.bestBlock);
        Raise(HeightNotice, last0, outbox0, raised + forks, text);
      } else {
        assert raised + forks + notices == raised + forks;
      }
      assert raised + forks + notices == raised + ForkAlerts(Ok(rep), old(bestHeight));
    }
  }

  /** `keys` lists exactly the heights that have a bucket. */
  ghost predicate Enumerates(keys: seq<int>, heights: map<int, seq<string>>) {
    && (forall k :: 0 <= k < |keys| ==> keys[k] in heights)
    && (forall h :: h in heights ==> h in keys)
  }

  /** `if (!heights[h]) heights[h] = []` followed by the push of the node's hash; a new height
      joins `keys`. */
  method Push(heights: map<int, seq<string>>, keys: seq<int>, chain: Chain)
    returns (heights': map<int, seq<string>>, keys': seq<int>)
    requires Enumerates(keys, heights)
    ensures heights' == heights[chain.height := Bucket(heights, chain.height) + [chain.hash]]
    ensures Enumerates(keys', heights')
  {
    keys' := keys;
    if chain.height !in heights {
      keys' := keys + [chain.height];
    }
    heights' := heights[chain.height := Bucket(heights, chain.height) + [chain.hash]];
  }

  /** The second loop of `checkFork`: `for (const height in heights)` runs the inner loop over
      each bucket; `fork`, once set, stays set. `keys` lists the heights in the order they are
      enumerated, which the result does not depend on. */
  method ForkOf(heights: map<int, seq<string>>, keys: seq<int>) returns (fork: bool)
    requires Enumerates(keys, heights)
    ensures fork <==> exists h :: h in heights && BucketForks(heights[h])
  {
    fork := false;
    for i := 0 to |keys|
      invariant fork <==> exists k :: 0 <= k < i && BucketForks(heights[keys[k]])
    {
      var bucket := heights[keys[i]];
      ghost var before := fork;
      // `hash` starts as null; `!hash` also takes the empty string, so "" stands for both
      var hash := "";
      for j := 0 to |bucket|
        invariant hash == Latch(bucket[..j])
        invariant fork <==> before || BucketForks(bucket[..j])
      {
        assert bucket[..j + 1][..j] == bucket[..j];
        if hash == "" {
          hash := bucket[j];
        } else if hash != bucket[j] {
          fork := true;
        }
      }
      assert bucket[..|bucket|] == bucket;
    }
    if fork {
      var k :| 0 <= k < |keys| && BucketForks(heights[keys[k]]);
      assert keys[k] in heights && BucketForks(heights[keys[k]]);
    }
    if exists h :: h in heights && BucketForks(heights[h]) {
      var h :| h in heights && BucketForks(heights[h]);
      var k :| 0 <= k < |keys| && keys[k] == h;
    }
  }

  /** The third loop of `checkFork`: counts each hash of the best height's bucket in `bestBlocks`
      and takes it as `bestBlock` when its count exceeds `best`. `best` keeps its initial 0, so
      every entry is taken and the last one wins. */
  method BestBlockOf(bucket: seq<string>) returns (bestBlock: string)
    requires bucket != []
    ensures bestBlock == Last(bucket)
  {
    var bestBlocks: map<string, int> := map[];
    bestBlock := "";
    var best := 0;
    for j := 0 to |bucket|
      invariant forall k :: k in bestBlocks ==> bestBlocks[k] >= 1
      invariant j > 0 ==> bestBlock == bucket[j - 1]
    {
      var hash := bucket[j];
      // `!bestBlocks[hash]`: a count, once set, is at least 1
      if hash !in bestBlocks {
        bestBlocks := bestBlocks[hash := 1];
      } else {
        bestBlocks := bestBlocks[hash := bestBlocks[hash] + 1];
      }
      if bestBlocks[hash] > best {
        bestBlock := hash;
      }
    }
  }

  /** The `Promise` object an `async` call returns: a fresh object on every call. */
  class Promise {
    constructor() {}
  }

  /** `send` as written: `this.sendID(subject, text)` is not awaited, so `id` is a new Promise,
      never the one kept in `lastSend`, and the comparison never suppresses a notification. */
  class PromiseGate {
    const name: string
    const subscribers: seq<string>
    var lastSend: Promise?
    ghost var outbox: seq<Email>

    constructor(name: string, subscribers: seq<string>)
      ensures this.name == name && this.subscribers == subscribers
      ensures lastSend == null && outbox == []
    {
      this.name := name;
      this.subscribers := subscribers;
      lastSend := null;
      outbox := [];
    }

    method Send(subject: string, text: Body)
      modifies this`lastSend, this`outbox
      ensures fresh(lastSend)
      ensures outbox == old(outbox) + Mails(subscribers, SubjectLine(name, subject), text)
    {
      var id := new Promise();
      if id != lastSend {
        lastSend := id;
        var line := SubjectLine(name, subject);
        for i := 0 to |subscribers|
          invariant lastSend == id
          invariant outbox == old(outbox) + Mails(subscribers[..i], line, text)
        {
          assert subscribers[..i + 1][..i] == subscribers[..i];
          outbox := outbox + [Email(subscribers[i], line, text)];
        }
        assert subscribers[..|subscribers|] == subscribers;
      }
    }
  }

  /** The same alert on the same store text, twice in a row, as written: the second call mails
      every subscriber again, where the awaited fingerprint (`NotifyDedup`) sends nothing. */
  method RepeatAsWritten(gate: PromiseGate, subject: string, text: Body)
    modifies gate
    ensures var mails := Mails(gate.subscribers, SubjectLine(gate.name, subject), text);
            gate.outbox == old(gate.outbox) + mails + mails
  {
    gate.Send(subject, text);
    gate.Send(subject, text);
  }
}
