/** What a commit leaves on chain when requests fail: which of them decides a key, and exactly when the
    outcome is the log's replay (ha_blockchain.cc bc_commit, which looks at no result). */
module Delivery {
  import opened Bytes
  import opened Network
  import opened Statements

  /** The batch sent at p holds k, and its request for k succeeds. */
  predicate Sends(log: Log, t: string, k: BYTES, net: Conditions, p: int) {
    Flushes(log, t, p) && k in Pending(log[..p], t) && Survives(net(p, t), k)
  }

  /** The REMOVE of k at p succeeds. */
  predicate Removes(log: Log, t: string, k: BYTES, net: Conditions, p: int) {
    0 <= p < |log| && log[p] == Remove(t, k) && !net(p, t).txFails
  }

  predicate Takes(log: Log, t: string, k: BYTES, net: Conditions, p: int) {
    Sends(log, t, k, net, p) || Removes(log, t, k, net, p)
  }

  /** What k is after that. */
  function Effect(log: Log, t: string, k: BYTES, net: Conditions, p: int): Option<BYTES>
    requires Takes(log, t, k, net, p)
  {
    if Removes(log, t, k, net, p) then None else Some(Pending(log[..p], t)[k])
  }

  ghost predicate LastTake(log: Log, t: string, k: BYTES, net: Conditions, p: int) {
    Takes(log, t, k, net, p) && forall q :: p < q <= |log| ==> !Takes(log, t, k, net, q)
  }

  ghost predicate NoTake(log: Log, t: string, k: BYTES, net: Conditions) {
    forall q :: 0 <= q <= |log| ==> !Takes(log, t, k, net, q)
  }

  lemma {:induction false} TakesInit(log: Log, t: string, k: BYTES, net: Conditions, q: int)
    requires log != [] && q < |log| - 1
    ensures Takes(log, t, k, net, q) <==> Takes(Init(log), t, k, net, q)
    ensures Takes(log, t, k, net, q) ==> Effect(log, t, k, net, q) == Effect(Init(log), t, k, net, q)
  {
    if 0 <= q {
      assert log[..q] == Init(log)[..q] && log[q] == Init(log)[q];
    }
  }

  /** Requests inside a prefix of the log are those of the log. */
  lemma {:induction false} TakesPrefix(log: Log, n: nat, t: string, k: BYTES, net: Conditions, q: int)
    requires q < n <= |log|
    ensures Takes(log[..n], t, k, net, q) <==> Takes(log, t, k, net, q)
    ensures Takes(log, t, k, net, q) ==> Effect(log[..n], t, k, net, q) == Effect(log, t, k, net, q)
  {
    if 0 <= q {
      assert log[..n][..q] == log[..q] && log[..n][q] == log[q];
    }
  }

  lemma {:induction false} LoopStep(tab: Table, log: Log, t: string, net: Conditions, k: BYTES)
    requires log != []
    ensures Lookup(Flushed(tab, log, t, net), k) ==
      if Takes(log, t, k, net, |log| - 1) then Effect(log, t, k, net, |log| - 1)
      else Lookup(Flushed(tab, Init(log), t, net), k)
  {
    assert log[..|log| - 1] == Init(log);
  }

  /** The last request of the loop that takes effect on k decides it. */
  lemma {:induction false} LoopOutcome(tab: Table, log: Log, t: string, net: Conditions, k: BYTES) returns (p: int)
    ensures -1 <= p < |log|
    ensures forall q :: p < q < |log| ==> !Takes(log, t, k, net, q)
    ensures p == -1 ==> Lookup(Flushed(tab, log, t, net), k) == Lookup(tab, k)
    ensures p != -1 ==> Takes(log, t, k, net, p) && Lookup(Flushed(tab, log, t, net), k) == Effect(log, t, k, net, p)
  {
    if log == [] {
      return -1;
    }
    var n := |log| - 1;
    p := LoopOutcome(tab, Init(log), t, net, k);
    forall q | q < n
      ensures Takes(log, t, k, net, q) <==> Takes(Init(log), t, k, net, q)
      ensures Takes(log, t, k, net, q) ==> Effect(log, t, k, net, q) == Effect(Init(log), t, k, net, q)
    {
      TakesInit(log, t, k, net, q);
    }
    LoopStep(tab, log, t, net, k);
    if Takes(log, t, k, net, n) {
      p := n;
    }
  }

  /** Whatever transactions fail, a key ends as the last request that takes effect on it leaves it. */
  lemma {:induction false} CommitOutcome(tab: Table, log: Log, t: string, net: Conditions, k: BYTES) returns (p: int)
    ensures if p == -1
      then NoTake(log, t, k, net) && Lookup(Committed(tab, log, t, net), k) == Lookup(tab, k)
      else LastTake(log, t, k, net, p) && Lookup(Committed(tab, log, t, net), k) == Effect(log, t, k, net, p)
  {
    p := LoopOutcome(tab, log, t, net, k);
    assert log[..|log|] == log;
    if Takes(log, t, k, net, |log|) {
      p := |log|;
    }
  }

  /** What a statement on a key asks for. */
  function Wanted(s: Statement): Option<BYTES> {
    if s.Write? then Some(s.value) else None
  }

  /** The last request that takes effect on k gives it what its last statement asks for; without such a
      request the key had that content before. */
  ghost predicate Delivered(tab: Table, log: Log, t: string, k: BYTES, net: Conditions) {
    forall j :: LastOn(log, t, k, j) ==>
      && (NoTake(log, t, k, net) ==> Lookup(tab, k) == Wanted(log[j]))
      && forall p :: LastTake(log, t, k, net, p) ==> Effect(log, t, k, net, p) == Wanted(log[j])
  }

  ghost predicate AllDelivered(tab: Table, log: Log, t: string, net: Conditions) {
    forall k :: Delivered(tab, log, t, k, net)
  }

  lemma LastTakeUnique(log: Log, t: string, k: BYTES, net: Conditions, p: int, q: int)
    requires LastTake(log, t, k, net, p) && LastTake(log, t, k, net, q)
    ensures p == q
  {
    assert p < q ==> !Takes(log, t, k, net, q);
    assert q < p ==> !Takes(log, t, k, net, p);
  }

  lemma {:induction false} TakesTouches(log: Log, t: string, k: BYTES, net: Conditions, q: int)
    requires Takes(log, t, k, net, q)
    ensures !Untouched(log, t, k)
  {
    if Removes(log, t, k, net, q) {
      assert Touches(log[q], t, k);
    } else {
      PendingKeys(log[..q], t, k);
      var i :| OpenWrite(log[..q], t, k, i);
      assert Touches(log[i], t, k);
    }
  }

  /** A key that the log does not touch is touched by no request. */
  lemma {:induction false} UntouchedTakesNothing(log: Log, t: string, k: BYTES, net: Conditions)
    ensures Untouched(log, t, k) ==> NoTake(log, t, k, net)
  {
    if !NoTake(log, t, k, net) {
      var q :| 0 <= q <= |log| && Takes(log, t, k, net, q);
      TakesTouches(log, t, k, net, q);
    }
  }

  /** Key by key: commit and replay agree exactly where the key is delivered. */
  lemma {:induction false} KeyIsReplayedIff(tab: Table, log: Log, t: string, net: Conditions, k: BYTES)
    ensures Lookup(Committed(tab, log, t, net), k) == Lookup(Replay(tab, log, t), k) <==> Delivered(tab, log, t, k, net)
  {
    var p := CommitOutcome(tab, log, t, net, k);
    var i, j := Decider(tab, log, t, k);
    if j == -1 {
      UntouchedTakesNothing(log, t, k, net);
    } else {
      assert Lookup(Replay(tab, log, t), k) == Wanted(log[j]);
      forall j' | LastOn(log, t, k, j') ensures j' == j { LastOnUnique(log, t, k, j, j'); }
      forall q | LastTake(log, t, k, net, q) ensures q == p {
        if p != -1 {
          LastTakeUnique(log, t, k, net, p, q);
        }
      }
    }
  }

  lemma {:induction false} SameLookups(a: Table, b: Table)
    requires forall k :: Lookup(a, k) == Lookup(b, k)
    ensures a == b
  {
    forall k ensures k in a <==> k in b { assert Lookup(a, k) == Lookup(b, k); }
    forall k | k in a ensures a[k] == b[k] { assert Lookup(a, k) == Lookup(b, k); }
  }

  /** For every log, every prior content and whatever transactions fail: bc_commit gives table t the
      log's plain replay if and only if every key is delivered. */
  lemma {:induction false} CommitIsReplayIff(tab: Table, log: Log, t: string, net: Conditions)
    ensures Committed(tab, log, t, net) == Replay(tab, log, t) <==> AllDelivered(tab, log, t, net)
  {
    forall k
      ensures Lookup(Committed(tab, log, t, net), k) == Lookup(Replay(tab, log, t), k) <==>
        Delivered(tab, log, t, k, net)
    {
      KeyIsReplayedIff(tab, log, t, net, k);
    }
    if AllDelivered(tab, log, t, net) {
      SameLookups(Committed(tab, log, t, net), Replay(tab, log, t));
    }
  }

  /** When every request sent succeeds, that is a property of the log alone. */
  lemma {:induction false} CarriedDeliversIff(tab: Table, log: Log, t: string, net: Conditions)
    requires Carried(log, t, net)
    ensures AllDelivered(tab, log, t, net) <==> Faithful(log, t)
  {
    CommitIsReplayIff(tab, log, t, net);
    CarriedIsReplayIff(tab, log, t, net);
  }

  /** A write whose request fails is lost: the table stays as it was. */
  lemma {:induction false} UnsentWriteIsLost(tab: Table, t: string, k: BYTES, v: BYTES, net: Conditions)
    requires !Survives(net(1, t), k) && Lookup(tab, k) != Some(v)
    ensures var log := [Write(t, k, v)];
      && Committed(tab, log, t, net) == tab && Replay(tab, log, t) == tab[k := v]
      && Faithful(log, t) && !Delivered(tab, log, t, k, net)
  {
    var log, s := [Write(t, k, v)], Write(t, k, v);
    StepAtEnd(tab, [], s, t, net);
    assert [] + [s] == log;
    assert Surviving(Pending(log, t), net(1, t)) == map[];
    KeyIsReplayedIff(tab, log, t, net, k);
    assert Lookup(Replay(tab, log, t), k) == Some(v);
    assert NoRewrite(log, t) by {
      assert forall i :: !OpenWrite(log[..0], t, k, i);
    }
    NoRewriteIsFaithful(log, t);
  }

  /** A REMOVE whose request fails after its batch has been sent leaves the key that it was to delete. */
  lemma {:induction false} FailedRemoveKeepsRow(tab: Table, t: string, k: BYTES, v: BYTES, net: Conditions)
    requires Survives(net(1, t), k) && net(1, t).txFails
    ensures var log := [Write(t, k, v), Remove(t, k)];
      Committed(tab, log, t, net) == tab[k := v] && Replay(tab, log, t) == tab - {k} && !Delivered(tab, log, t, k, net)
  {
    var w, r := Write(t, k, v), Remove(t, k);
    var log := [w, r];
    StepAtEnd(tab, [], w, t, net);
    assert [] + [w] == [w] && Init(log) == [w] && Last(log) == r;
    assert Surviving(Pending([w], t), net(1, t)) == map[k := v];
    assert Pending(log, t) == map[];
    KeyIsReplayedIff(tab, log, t, net, k);
    assert k in Committed(tab, log, t, net) && k !in Replay(tab, log, t);
  }
}
