/** What a caller of put can rely on when requests fail (adapter_interface.h put, adapter_ethereum.cpp put):
    nothing of a batch is lost between contract and remainder, and repeating on the remainder completes it. */
module Retries {
  import opened Bytes
  import opened Network
  import opened Commits
  import opened Engine
  import EA = EthereumAdapter

  /** Every pair is either on chain or still in the batch, whatever fails. */
  lemma {:induction false} Conserved(tab: Table, batch: Table, n: Net)
    ensures tab + Surviving(batch, n) + Remainder(batch, n) == tab + batch
    ensures Surviving(batch, n).Keys !! Remainder(batch, n).Keys
  {
  }

  /** Contract and batch after a put under each of the given conditions, always on what remains. */
  function Attempts(tab: Table, batch: Table, nets: seq<Net>): (Table, Table) {
    if nets == [] then (tab, batch)
    else
      var (now, left) := Attempts(tab, batch, nets[..|nets| - 1]);
      (now + Surviving(left, nets[|nets| - 1]), Remainder(left, nets[|nets| - 1]))
  }

  lemma {:induction false} AttemptsConserve(tab: Table, batch: Table, nets: seq<Net>)
    ensures Attempts(tab, batch, nets).0 + Attempts(tab, batch, nets).1 == tab + batch
  {
    if nets != [] {
      var (now, left) := Attempts(tab, batch, nets[..|nets| - 1]);
      AttemptsConserve(tab, batch, nets[..|nets| - 1]);
      Conserved(now, left, nets[|nets| - 1]);
    }
  }

  ghost predicate SurvivesOne(nets: seq<Net>, k: BYTES) {
    exists i :: 0 <= i < |nets| && Survives(nets[i], k)
  }

  lemma {:induction false} LeftOver(tab: Table, batch: Table, nets: seq<Net>, k: BYTES)
    ensures k in Attempts(tab, batch, nets).1 <==> k in batch && !SurvivesOne(nets, k)
  {
    if nets != [] {
      var n := |nets| - 1;
      LeftOver(tab, batch, nets[..n], k);
      assert SurvivesOne(nets, k) <==> SurvivesOne(nets[..n], k) || Survives(nets[n], k) by {
        if SurvivesOne(nets[..n], k) {
          var i :| 0 <= i < n && Survives(nets[..n][i], k);
          assert nets[i] == nets[..n][i];
        }
        if SurvivesOne(nets, k) && !Survives(nets[n], k) {
          var i :| 0 <= i <= n && Survives(nets[i], k);
          assert nets[i] == nets[..n][i];
        }
      }
    }
  }

  /** However often and wherever requests fail: nothing is left, and the whole batch is on chain, exactly
      when every pair survived one of the attempts. */
  lemma {:induction false} CompleteIff(tab: Table, batch: Table, nets: seq<Net>)
    ensures Attempts(tab, batch, nets).1 == map[] <==> forall k :: k in batch ==> SurvivesOne(nets, k)
    ensures Attempts(tab, batch, nets).1 == map[] ==> Attempts(tab, batch, nets).0 == tab + batch
  {
    AttemptsConserve(tab, batch, nets);
    var (now, left) := Attempts(tab, batch, nets);
    forall k ensures k in left <==> k in batch && !SurvivesOne(nets, k) {
      LeftOver(tab, batch, nets, k);
    }
    if left == map[] {
      assert now + left == now;
    } else {
      var k :| k in left;
    }
  }

  lemma {:induction false} RemainderFits(batch: Table, n: Net)
    requires PutFits(batch)
    ensures PutFits(Remainder(batch, n))
  {
    var r := Remainder(batch, n);
    SubsetSize(r.Keys, batch.Keys);
    assert |r| == |r.Keys| && |batch| == |batch.Keys|;
  }

  /** More attempts never hurt. */
  lemma {:induction false} EarlierSuffices(batch: Table, nets: seq<Net>, i: nat)
    requires i <= |nets| && AnyAvailable(nets[..i]) && forall k :: k in batch ==> SurvivesOne(nets[..i], k)
    ensures AnyAvailable(nets) && forall k :: k in batch ==> SurvivesOne(nets, k)
  {
    var a :| 0 <= a < i && nets[..i][a].available;
    assert nets[a] == nets[..i][a];
    forall k | k in batch ensures SurvivesOne(nets, k) {
      var j :| 0 <= j < i && Survives(nets[..i][j], k);
      assert nets[j] == nets[..i][j];
    }
  }

  /** Some attempt finds the network. */
  ghost predicate AnyAvailable(nets: seq<Net>) {
    exists i :: 0 <= i < |nets| && nets[i].available
  }

  lemma {:induction false} AvailableStep(nets: seq<Net>, i: nat)
    requires i < |nets|
    ensures AnyAvailable(nets[..i + 1]) <==> AnyAvailable(nets[..i]) || nets[i].available
  {
    if AnyAvailable(nets[..i]) {
      var j :| 0 <= j < i && nets[..i][j].available;
      assert nets[..i + 1][j] == nets[..i][j];
    }
    if nets[i].available {
      assert nets[..i + 1][i] == nets[i];
    }
    if AnyAvailable(nets[..i + 1]) && !nets[i].available {
      var j :| 0 <= j <= i && nets[..i + 1][j].available;
      assert nets[..i][j] == nets[..i + 1][j];
    }
  }

  /** The state after the given attempts: 0 with nothing left, or 1 with what is left. Without any network
      put does not even look at the batch. */
  ghost predicate Trying(tab: Table, batch: Table, nets: seq<Net>, rc: int, now: Table, remaining: Table) {
    && (rc == 0 || rc == 1)
    && now == Attempts(tab, batch, nets).0
    && (rc == 1 ==> remaining == Attempts(tab, batch, nets).1 && PutFits(remaining))
    && (rc == 0 <==> Attempts(tab, batch, nets).1 == map[] && AnyAvailable(nets))
  }

  lemma {:induction false} AttemptsStep(tab: Table, batch: Table, nets: seq<Net>, i: nat, now: Table, left: Table)
    requires i < |nets| && Attempts(tab, batch, nets[..i]) == (now, left)
    ensures Attempts(tab, batch, nets[..i + 1]) == (now + Surviving(left, nets[i]), Remainder(left, nets[i]))
  {
    assert nets[..i + 1][..i] == nets[..i];
  }

  lemma NothingSent(batch: Table, n: Net)
    requires !n.available
    ensures Remainder(batch, n) == batch
  {
  }

  lemma {:induction false} TryStep(tab: Table, batch: Table, nets: seq<Net>, i: nat, now: Table, before: Table,
                                   rc: int, now': Table, remaining: Table)
    requires i < |nets| && Trying(tab, batch, nets[..i], 1, now, before)
    requires now' == now + Surviving(before, nets[i])
    requires rc == if nets[i].available && Remainder(before, nets[i]) == map[] then 0 else 1
    requires rc == 1 ==> remaining == Remainder(before, nets[i])
    ensures Trying(tab, batch, nets[..i + 1], rc, now', remaining)
  {
    RemainderFits(before, nets[i]);
    AttemptsStep(tab, batch, nets, i, now, before);
    AvailableStep(nets, i);
    if !nets[i].available {
      NothingSent(before, nets[i]);
    }
  }

  /** Calls put on the remainder of a batch until it returns 0 or the conditions run out. It ends with 0, the
      whole batch on chain, exactly when some attempt finds the network and every pair survives one of them;
      otherwise with what is left. */
  method PutUntilDone(adapter: EA.EthereumAdapter, batch: Table, nets: seq<Net>) returns (rc: int, remaining: Table)
    requires adapter.Valid() && PutFits(batch)
    modifies adapter, adapter.node, adapter.node.contract
    ensures adapter.Valid()
    ensures rc == if AnyAvailable(nets) && forall k :: k in batch ==> SurvivesOne(nets, k) then 0 else 1
    ensures rc == 0 ==> adapter.Table() == old(adapter.Table()) + batch
    ensures rc == 1 ==> (adapter.Table(), remaining) == Attempts(old(adapter.Table()), batch, nets)
  {
    rc, remaining := 1, batch;
    ghost var tab := adapter.Table();
    var i := 0;
    while i < |nets| && rc != 0
      invariant 0 <= i <= |nets| && adapter.Valid()
      invariant Trying(tab, batch, nets[..i], rc, adapter.Table(), remaining)
    {
      ghost var now := adapter.Table();
      var before := remaining;
      rc, remaining := Deliver(adapter, before, nets[i]);
      TryStep(tab, batch, nets, i, now, before, rc, adapter.Table(), remaining);
      i := i + 1;
    }
    CompleteIff(tab, batch, nets[..i]);
    if rc == 0 {
      EarlierSuffices(batch, nets, i);
    } else {
      assert nets[..i] == nets;
    }
  }
}
