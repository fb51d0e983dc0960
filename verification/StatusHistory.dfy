/** What runs of interleaved handlers do to the status of a node. */
module StatusHistory {
  import opened Results
  import opened Mac
  import opened Nodes
  import opened Store
  import opened Handlers
  import opened Lifecycle
  import opened Scenarios

  // ---- no stage is skipped, however the handlers interleave ----

  ghost predicate Stored(log: seq<Write>, key: string, status: Status)
  {
    exists i :: 0 <= i < |log| && log[i].key == key && log[i].record.status == status
  }

  // The log justifies a status: every earlier stage was stored before, in order.
  ghost predicate Reached(log: seq<Write>, key: string, status: Status)
  {
    match status
    case Discovered => true
    case Installing => Stored(log, key, Discovered)
    case Installed => exists i :: 0 <= i < |log| && log[i].key == key && log[i].record.status == Installing
                        && Stored(log[..i], key, Discovered)
    case Unknown(_) => false
  }

  ghost predicate LogReached(log: seq<Write>)
  {
    forall j | 0 <= j < |log| :: Reached(log[..j], log[j].key, log[j].record.status)
  }

  ghost predicate HandlersReached(s: System)
  {
    forall i | 0 <= i < |s.handlers| && Carried(s.handlers[i]).Some? ::
      var node := Carried(s.handlers[i]).value;
      && Reached(s.log, node.mac, node.status)
      && (s.handlers[i].MqttCheck? ==> Stored(s.log, node.mac, node.status))
  }

  lemma StoredGrows(log: seq<Write>, longer: seq<Write>, key: string, status: Status)
    requires log <= longer && Stored(log, key, status)
    ensures Stored(longer, key, status)
  {
  }

  lemma ReachedGrows(log: seq<Write>, longer: seq<Write>, key: string, status: Status)
    requires log <= longer && Reached(log, key, status)
    ensures Reached(longer, key, status)
  {
  }

  // A stored status is justified, and so is the stage after it.
  lemma NextIsReached(log: seq<Write>, key: string, status: Status, next: Status)
    requires LogReached(log) && Stored(log, key, status)
    requires next == status || CanTransition(status, next)
    ensures Reached(log, key, next)
  {
  }

  lemma StoreIsStored(s: System, key: string)
    requires StoreIsLog(s) && key in s.shared.store
    ensures Stored(s.log, key, s.shared.store[key].status)
  {
    var i := LastIsWritten(s.log, key);
  }

  lemma MoveKeepsReached(s: System, i: nat, m: Move, now: int)
    requires GoodMove(s, i, m, now)
    requires LogReached(s.log) && HandlersReached(s)
    ensures LogReached(Moved(s, i, m, now).log)
  {
    hide NormalizeMAC, CarriesWell, Reached, Stored;
    if m.wrote.Some? {
      var k := m.wrote.value;
      if s.handlers[i].InstallApply? {
        StoreIsStored(s, k);
        NextIsReached(s.log, k, s.shared.store[k].status, Installing);
      }
      var log := Moved(s, i, m, now).log;
      assert log[..|s.log|] == s.log;
      forall j | 0 <= j < |log|
        ensures Reached(log[..j], log[j].key, log[j].record.status)
      {
        if j < |s.log| {
          assert log[..j] == s.log[..j];
        }
      }
    } else {
      assert Moved(s, i, m, now).log == s.log;
    }
  }

  lemma MoveKeepsHandlersReached(s: System, i: nat, m: Move, now: int)
    requires GoodMove(s, i, m, now)
    requires LogReached(s.log) && HandlersReached(s)
    ensures HandlersReached(Moved(s, i, m, now))
  {
    var t := Moved(s, i, m, now);
    assert s.log <= t.log;
    forall j | 0 <= j < |t.handlers| && Carried(t.handlers[j]).Some?
      ensures var node := Carried(t.handlers[j]).value;
              Reached(t.log, node.mac, node.status) && (t.handlers[j].MqttCheck? ==> Stored(t.log, node.mac, node.status))
    {
      if j == i {
        CarriedIsReached(s, i, m, now);
      } else {
        hide Reached, Stored, WritesWell, CarriesWell;
        var node := Carried(s.handlers[j]).value;
        ReachedGrows(s.log, t.log, node.mac, node.status);
        if s.handlers[j].MqttCheck? {
          StoredGrows(s.log, t.log, node.mac, node.status);
        }
      }
    }
  }

  lemma CarriedIsReached(s: System, i: nat, m: Move, now: int)
    requires GoodMove(s, i, m, now) && Carried(m.next).Some?
    requires LogReached(s.log) && HandlersReached(s)
    ensures var node, t := Carried(m.next).value, Moved(s, i, m, now);
            Reached(t.log, node.mac, node.status) && (m.next.MqttCheck? ==> Stored(t.log, node.mac, node.status))
  {
    hide NormalizeMAC, WritesWell, Stored, LogReached;
    var node, t := Carried(m.next).value, Moved(s, i, m, now);
    assert s.log <= t.log;
    if node.mac in s.shared.store && node.status == s.shared.store[node.mac].status {
      StoreIsStored(s, node.mac);
      NextIsReached(s.log, node.mac, node.status, node.status);
      StoredGrows(s.log, t.log, node.mac, node.status);
    }
    if s.handlers[i].MqttCheck? {
      NextIsReached(s.log, node.mac, s.handlers[i].node.status, node.status);
    }
    if Reached(s.log, node.mac, node.status) {
      ReachedGrows(s.log, t.log, node.mac, node.status);
    }
  }

  lemma ReactReaches(net: Option<Network>, s: System, e: Event)
    requires RepositoryInv(s) && LogReached(s.log) && HandlersReached(s)
    ensures LogReached(React(net, s, e).log) && HandlersReached(React(net, s, e))
  {
    hide Step, Reached, Stored;
    if e.Advance? && e.i < |s.handlers| {
      var now := s.clock + e.delay;
      var m := Step(net, s.shared, s.handlers[e.i], now);
      hide LogReached, HandlersReached;
      StepIsGood(net, s, e.i, now);
      MoveKeepsReached(s, e.i, m, now);
      MoveKeepsHandlersReached(s, e.i, m, now);
    }
  }

  lemma {:induction false} RunReaches(net: Option<Network>, start: int, events: seq<Event>)
    ensures LogReached(Run(net, start, events).log) && HandlersReached(Run(net, start, events))
  {
    hide React;
    if events != [] {
      hide LogReached, HandlersReached;
      var before := events[..|events| - 1];
      RunReaches(net, start, before);
      RunKeepsRepository(net, start, before);
      ReactReaches(net, Run(net, start, before), events[|events| - 1]);
    }
  }

  // In every interleaving, every stored installed is preceded by a stored installing, and that by a stored discovered.
  lemma NoStageSkipped(net: Option<Network>, start: int, events: seq<Event>, j: nat)
    requires j < |Run(net, start, events).log|
    ensures var log := Run(net, start, events).log;
            && IsValidStatus(log[j].record.status)
            && (log[j].record.status == Installing ==>
                  exists h :: 0 <= h < j && log[h].key == log[j].key && log[h].record.status == Discovered)
            && (log[j].record.status == Installed ==>
                  exists h, i :: 0 <= h < i < j && log[h].key == log[i].key == log[j].key
                    && log[h].record.status == Discovered && log[i].record.status == Installing)
  {
    RunReaches(net, start, events);
    var log := Run(net, start, events).log;
    hide Run;
    assert Reached(log[..j], log[j].key, log[j].record.status);
    if log[j].record.status == Installed {
      var i :| 0 <= i < j && log[i].key == log[j].key && log[i].record.status == Installing
               && Stored(log[..j][..i], log[j].key, Discovered);
      var h :| 0 <= h < i && log[..j][..i][h].key == log[j].key && log[..j][..i][h].record.status == Discovered;
      assert log[h] == log[..j][..i][h];
    }
  }

  // ---- each write against what its handler had read ----

  function StageAt(log: seq<Write>, key: string): int
  {
    match Last(log, key)
    case None => 0
    case Some(record) => Rank(record.status)
  }

  // How far the node a handler carries is ahead of the bucket when the handler last touched it.
  ghost predicate CarriedAhead(s: System, i: nat)
    requires i < |s.handlers| == |s.seen|
  {
    Carried(s.handlers[i]).Some? ==>
      var node := Carried(s.handlers[i]).value;
      && s.seen[i] <= |s.log|
      && var ahead := Rank(node.status) - StageAt(s.log[..s.seen[i]], node.mac);
         if s.handlers[i].DhcpAssign? || s.handlers[i].DhcpRecord? || s.handlers[i].MqttCheck? then ahead == 0
         else 0 <= ahead <= 1
  }

  ghost predicate LogAhead(log: seq<Write>)
  {
    forall j | 0 <= j < |log| ::
      && log[j].seen <= j
      && 0 <= Rank(log[j].record.status) - StageAt(log[..log[j].seen], log[j].key) <= 1
  }

  ghost predicate AheadInv(s: System)
  {
    && |s.seen| == |s.handlers|
    && LogAhead(s.log)
    && forall i | 0 <= i < |s.handlers| :: CarriedAhead(s, i)
  }

  lemma StageIsStored(s: System, key: string)
    requires StoreIsLog(s)
    ensures StageAt(s.log, key) == if key in s.shared.store then Rank(s.shared.store[key].status) else 0
  {
  }

  lemma MoveKeepsLogAhead(s: System, i: nat, m: Move, now: int)
    requires GoodMove(s, i, m, now) && AheadInv(s)
    ensures LogAhead(Moved(s, i, m, now).log)
  {
    hide NormalizeMAC, CarriesWell, StageAt;
    assert CarriedAhead(s, i);
    var log := Moved(s, i, m, now).log;
    if m.wrote.Some? {
      assert s.log[..|s.log|] == s.log == log[..|s.log|];
      StageIsStored(s, m.wrote.value);
      forall j | 0 <= j < |log|
        ensures log[j].seen <= j && 0 <= Rank(log[j].record.status) - StageAt(log[..log[j].seen], log[j].key) <= 1
      {
        assert log[..log[j].seen] == s.log[..log[j].seen];
      }
    } else {
      assert log == s.log;
    }
  }

  lemma MoveKeepsCarriedAhead(s: System, i: nat, m: Move, now: int)
    requires GoodMove(s, i, m, now) && AheadInv(s)
    ensures AheadInv(Moved(s, i, m, now))
  {
    hide NormalizeMAC, StageAt;
    var t := Moved(s, i, m, now);
    assert s.log <= t.log;
    MoveKeepsLogAhead(s, i, m, now);
    forall j | 0 <= j < |t.handlers|
      ensures CarriedAhead(t, j)
    {
      if j != i {
        hide WritesWell, CarriesWell;
        assert CarriedAhead(s, j);
        if Carried(s.handlers[j]).Some? {
          assert t.log[..s.seen[j]] == s.log[..s.seen[j]];
        }
      } else if Carried(m.next).Some? {
        NextCarriedAhead(s, i, m, now);
      }
    }
  }

  lemma NextCarriedAhead(s: System, i: nat, m: Move, now: int)
    requires GoodMove(s, i, m, now) && AheadInv(s) && Carried(m.next).Some?
    ensures i < |s.seen| && CarriedAhead(Moved(s, i, m, now), i)
  {
    hide NormalizeMAC, StageAt;
    var t, node := Moved(s, i, m, now), Carried(m.next).value;
    assert CarriedAhead(s, i);
    assert t.log[..|t.log|] == t.log;
    if s.handlers[i].DhcpSave? {
      StageAfterWrite(s.log, t.log[|s.log|]);
      assert t.log == s.log + [t.log[|s.log|]];
    } else {
      assert t.log == s.log;
      StageIsStored(s, node.mac);
    }
  }

  lemma StageAfterWrite(log: seq<Write>, w: Write)
    ensures StageAt(log + [w], w.key) == Rank(w.record.status)
  {
  }

  lemma ReactKeepsAhead(net: Option<Network>, s: System, e: Event)
    requires RepositoryInv(s) && AheadInv(s)
    ensures AheadInv(React(net, s, e))
  {
    hide Step, StageAt, LogAhead;
    if e.Advance? && e.i < |s.handlers| {
      var now := s.clock + e.delay;
      hide AheadInv;
      StepIsGood(net, s, e.i, now);
      MoveKeepsCarriedAhead(s, e.i, Step(net, s.shared, s.handlers[e.i], now), now);
    } else {
      var t := React(net, s, e);
      forall i | 0 <= i < |t.handlers|
        ensures CarriedAhead(t, i)
      {
        assert i < |s.handlers| ==> CarriedAhead(s, i);
      }
    }
  }

  lemma {:induction false} RunKeepsAhead(net: Option<Network>, start: int, events: seq<Event>)
    ensures AheadInv(Run(net, start, events))
  {
    hide React;
    if events != [] {
      hide AheadInv;
      var before := events[..|events| - 1];
      RunKeepsAhead(net, start, before);
      RunKeepsRepository(net, start, before);
      ReactKeepsAhead(net, Run(net, start, before), events[|events| - 1]);
    }
  }

  lemma {:induction false} LastUndisturbed(log: seq<Write>, key: string, i: nat, j: nat)
    requires i <= j <= |log|
    requires forall k | i <= k < j :: log[k].key != key
    ensures Last(log[..j], key) == Last(log[..i], key)
    decreases j
  {
    if i < j {
      LastUndisturbed(log, key, i, j - 1);
      assert log[..j][..j - 1] == log[..j - 1];
    }
  }

  // In every interleaving a write is at most one stage ahead of, and never behind, the status its handler last saw.
  // So if no other write to the record fell in between, the write keeps the life cycle.
  lemma UndisturbedWriteKeepsLifeCycle(net: Option<Network>, start: int, events: seq<Event>, j: nat)
    requires j < |Run(net, start, events).log|
    ensures var log := Run(net, start, events).log;
            && log[j].seen <= j
            && 0 <= Rank(log[j].record.status) - StageAt(log[..log[j].seen], log[j].key) <= 1
            && ((forall k | log[j].seen <= k < j :: log[k].key != log[j].key) ==>
                  0 <= Rank(log[j].record.status) - StageAt(log[..j], log[j].key) <= 1)
  {
    RunKeepsAhead(net, start, events);
    var log := Run(net, start, events).log;
    hide Run;
    if forall k | log[j].seen <= k < j :: log[k].key != log[j].key {
      LastUndisturbed(log, log[j].key, log[j].seen, j);
    }
  }

  // ---- which runs keep the life cycle ----

  // The write takes its record at most one stage forward and never back.
  ghost predicate KeepsLifeCycle(log: seq<Write>, j: nat)
    requires j < |log|
  {
    0 <= Rank(log[j].record.status) - StageAt(log[..j], log[j].key) <= 1
  }

  // How far a write moves on from the status its handler had seen: 0 for a refresh, 1 for a creation or an advance.
  function OwnAdvance(w: Write, log: seq<Write>): int
    requires w.seen <= |log|
  {
    Rank(w.record.status) - StageAt(log[..w.seen], w.key)
  }

  // The number of writes to a key, from the i-th write up to the j-th, that changed its status.
  function Changes(log: seq<Write>, key: string, i: nat, j: nat): nat
    requires j <= |log|
    decreases j
  {
    if j <= i then 0
    else
      Changes(log, key, i, j - 1)
      + if log[j - 1].key == key && Rank(log[j - 1].record.status) != StageAt(log[..j - 1], key) then 1 else 0
  }

  lemma StageOfPrefix(log: seq<Write>, key: string, j: nat)
    requires j < |log|
    ensures StageAt(log[..j + 1], key)
         == if log[j].key == key then Rank(log[j].record.status) else StageAt(log[..j], key)
  {
    assert log[..j + 1] == log[..j] + [log[j]];
    LastAppend(log[..j], log[j], key);
  }

  // While writes keep the life cycle, the stage of a record climbs by one with every change.
  lemma {:induction false} StageClimbs(log: seq<Write>, key: string, i: nat, j: nat)
    requires i <= j <= |log|
    requires forall m: nat | m < j :: KeepsLifeCycle(log, m)
    ensures StageAt(log[..j], key) == StageAt(log[..i], key) + Changes(log, key, i, j)
    decreases j
  {
    hide StageAt;
    if i < j {
      StageClimbs(log, key, i, j - 1);
      StageOfPrefix(log, key, j - 1);
      assert KeepsLifeCycle(log, j - 1);
    }
  }

  lemma {:induction false} FewChangesKeepLifeCycle(log: seq<Write>, n: nat)
    requires LogAhead(log) && n <= |log|
    requires forall j: nat | j < |log| :: Changes(log, log[j].key, log[j].seen, j) <= OwnAdvance(log[j], log)
    ensures forall j: nat | j < n :: KeepsLifeCycle(log, j)
  {
    hide StageAt;
    if n > 0 {
      FewChangesKeepLifeCycle(log, n - 1);
      StageClimbs(log, log[n - 1].key, log[n - 1].seen, n - 1);
      assert Changes(log, log[n - 1].key, log[n - 1].seen, n - 1) <= OwnAdvance(log[n - 1], log);
    }
  }

  // The exact condition, for every run: all writes keep the life cycle if and only if, between what its handler had seen
  // and each write, the status of that record changed at most as often as the write itself moves on. So a handler that
  // only refreshes a record must not be overtaken by any status change, and one that advances it by at most one.
  lemma RunKeepsLifeCycleIff(net: Option<Network>, start: int, events: seq<Event>, log: seq<Write>)
    requires log == Run(net, start, events).log
    ensures LogAhead(log)
    ensures (forall j: nat | j < |log| :: KeepsLifeCycle(log, j))
       <==> (forall j: nat | j < |log| :: Changes(log, log[j].key, log[j].seen, j) <= OwnAdvance(log[j], log))
  {
    RunKeepsAhead(net, start, events);
    hide Run, StageAt;
    if forall j: nat | j < |log| :: KeepsLifeCycle(log, j) {
      forall j: nat | j < |log|
        ensures Changes(log, log[j].key, log[j].seen, j) <= OwnAdvance(log[j], log)
      {
        StageClimbs(log, log[j].key, log[j].seen, j);
        assert KeepsLifeCycle(log, j);
      }
    }
    if forall j: nat | j < |log| :: Changes(log, log[j].key, log[j].seen, j) <= OwnAdvance(log[j], log) {
      FewChangesKeepLifeCycle(log, |log|);
    }
  }

  // Seen from the write itself: at any point of any run, a step that writes keeps the life cycle exactly when it is an
  // install (whose transaction checks the transition), or the record is new, or the check that Save omits would pass.
  lemma WriteKeepsLifeCycleIff(net: Option<Network>, start: int, events: seq<Event>, s: System, i: nat, m: Move,
                               now: int)
    requires s == Run(net, start, events) && i < |s.handlers| && s.clock <= now
    requires m == Step(net, s.shared, s.handlers[i], now) && m.wrote.Some?
    ensures var h, k := s.handlers[i], m.wrote.value;
            && (h.InstallApply? || Carried(h).Some?) && k in m.shared.store
            && (0 <= Rank(m.shared.store[k].status) - StageAt(s.log, k) <= 1
                <==> h.InstallApply? || k !in s.shared.store
                     || CanTransition(s.shared.store[k].status, Carried(h).value.status))
  {
    hide Run, Step;
    RunKeepsRepository(net, start, events);
    RunReaches(net, start, events);
    StepIsGood(net, s, i, now);
    WrittenStage(s, i, m, now);
  }

  lemma WrittenStage(s: System, i: nat, m: Move, now: int)
    requires GoodMove(s, i, m, now) && HandlersReached(s) && m.wrote.Some?
    ensures var h, k := s.handlers[i], m.wrote.value;
            && (h.InstallApply? || Carried(h).Some?) && k in m.shared.store
            && (0 <= Rank(m.shared.store[k].status) - StageAt(s.log, k) <= 1
                <==> h.InstallApply? || k !in s.shared.store
                     || CanTransition(s.shared.store[k].status, Carried(h).value.status))
  {
    hide NormalizeMAC, CarriesWell;
    var h, k := s.handlers[i], m.wrote.value;
    StageIsStored(s, k);
    if !h.InstallApply? {
      if k in s.shared.store {
        SaveKeepsLifeCycleIff(s.shared.store, Carried(h).value, now);
      } else {
        NeverStored(s, k, Carried(h).value.status);
      }
    }
  }

  // A handler can only carry discovered for a node that has no record.
  lemma NeverStored(s: System, key: string, status: Status)
    requires StoreIsLog(s) && HistoryGood(s) && key !in s.shared.store
    requires Reached(s.log, key, status)
    ensures status == Discovered
  {
  }

  // ---- handlers of the same node that do not overlap ----

  // The key a handler is about to write, from its find to its last write.
  function Holds(h: Handler): Option<string>
  {
    if Carried(h).Some? then Some(Carried(h).value.mac)
    else if h.InstallApply? then Some(NormalizeMAC(h.mac))
    else None
  }

  ghost predicate Exclusive(s: System)
  {
    forall i, j | 0 <= i < j < |s.handlers| && Holds(s.handlers[i]).Some? :: Holds(s.handlers[i]) != Holds(s.handlers[j])
  }

  // Handlers of the same node never overlap; handlers of different nodes interleave freely.
  ghost predicate NoOverlap(net: Option<Network>, start: int, events: seq<Event>)
  {
    forall n: nat | n <= |events| :: Exclusive(Run(net, start, events[..n]))
  }

  // What a handler carries is still what the bucket held when the handler last touched it.
  ghost predicate Undisturbed(s: System)
  {
    && |s.seen| == |s.handlers|
    && (forall i, j | 0 <= i < |s.handlers| && Carried(s.handlers[i]).Some? && s.seen[i] <= j < |s.log| ::
          s.log[j].key != Carried(s.handlers[i]).value.mac)
    && (forall j, k | 0 <= j < |s.log| && s.log[j].seen <= k < j :: s.log[k].key != s.log[j].key)
  }

  lemma MoveKeepsUndisturbed(s: System, i: nat, m: Move, now: int)
    requires GoodMove(s, i, m, now) && Undisturbed(s) && Exclusive(s)
    ensures Undisturbed(Moved(s, i, m, now))
  {
    hide NormalizeMAC, StoreIsLog, StoreGood, HistoryGood;
    var t := Moved(s, i, m, now);
    if m.wrote.Some? {
      assert Holds(s.handlers[i]) == Some(m.wrote.value);
    } else {
      assert t.log == s.log;
    }
  }

  lemma ReactKeepsUndisturbed(net: Option<Network>, s: System, e: Event)
    requires RepositoryInv(s) && Undisturbed(s) && Exclusive(s)
    ensures Undisturbed(React(net, s, e))
  {
    hide Step, NormalizeMAC, StoreIsLog, StoreGood, HistoryGood, Holds;
    if e.Advance? && e.i < |s.handlers| {
      var now := s.clock + e.delay;
      hide Undisturbed, Exclusive, Moved;
      StepIsGood(net, s, e.i, now);
      MoveKeepsUndisturbed(s, e.i, Step(net, s.shared, s.handlers[e.i], now), now);
    }
  }

  lemma {:induction false} RunKeepsUndisturbed(net: Option<Network>, start: int, events: seq<Event>)
    requires NoOverlap(net, start, events)
    ensures Undisturbed(Run(net, start, events))
  {
    hide React;
    if events != [] {
      var n := |events| - 1;
      forall k: nat | k <= n
        ensures Exclusive(Run(net, start, events[..n][..k]))
      {
        assert events[..n][..k] == events[..k];
      }
      RunKeepsUndisturbed(net, start, events[..n]);
      RunKeepsRepository(net, start, events[..n]);
      assert events[..n][..n] == events[..n];
      hide Undisturbed, Exclusive;
      ReactKeepsUndisturbed(net, Run(net, start, events[..n]), events[n]);
    }
  }

  // Without overlap on the same node, its status never goes backwards and every write advances it by at most one stage.
  lemma SerialRunsKeepLifeCycle(net: Option<Network>, start: int, events: seq<Event>, j: nat)
    requires NoOverlap(net, start, events)
    requires j < |Run(net, start, events).log|
    ensures var log := Run(net, start, events).log;
            0 <= Rank(log[j].record.status) - StageAt(log[..j], log[j].key) <= 1
  {
    RunKeepsUndisturbed(net, start, events);
    UndisturbedWriteKeepsLifeCycle(net, start, events, j);
  }

  // ---- the hypothesis is needed ----

  // A node registers; a DHCP handler reads it; an install request completes; the DHCP handler saves what it had read.
  function OverlappingRun(mac: string, msg: DhcpMessage): seq<Event>
  {
    [Arrive(RegisterFind(mac, "")), Advance(0, 0), Advance(0, 0)] +
    [Arrive(DhcpFind(msg)), Advance(1, 0)] +
    [Arrive(InstallFind(mac)), Advance(2, 0), Advance(2, 0)] +
    [Advance(1, 0)]
  }

  lemma Registers(net: Option<Network>, start: int, mac: string, r: Record)
    requires NormalizeMAC(mac) == mac && |mac| == 12
    requires r == Record(mac, "", "", "", "", "", Discovered, NEVER, start, start)
    ensures ReactAll(net, System(Shared(map[], map[]), [], [], [], start),
                     [Arrive(RegisterFind(mac, "")), Advance(0, 0), Advance(0, 0)])
         == System(Shared(map[mac := r], map[]), [Done], [1], [Write(mac, r, RegisterSave(r), 0)], start)
  {
    hide NormalizeMAC, ReactAll, DhcpFindNext, MqttFindNext, InstallFindNext, AssignMove, InstallMove, Reported;
    var s0 := System(Shared(map[], map[]), [], [], [], start);
    ReactThree(net, s0, Arrive(RegisterFind(mac, "")), Advance(0, 0), Advance(0, 0));
    var s1 := React(net, s0, Arrive(RegisterFind(mac, "")));
    assert s1.handlers == [RegisterFind(mac, "")] && s1.seen == [0];
    var s2 := React(net, s1, Advance(0, 0));
    assert s2 == System(Shared(map[], map[]), [RegisterSave(r)], [0], [], start);
    var s3 := React(net, s2, Advance(0, 0));
    assert s3.shared.store == map[mac := r];
  }

  lemma DhcpReads(net: Option<Network>, s: System, mac: string, r: Record, msg: DhcpMessage)
    requires s.shared.store == map[mac := r] && |s.handlers| == |s.seen| == 1
    requires NormalizeMAC(PrintHardware(msg.hw)) == NormalizeMAC(mac) == mac
    requires PrintHardware(msg.hw) != "" && msg.kind != Other
    ensures ReactAll(net, s, [Arrive(DhcpFind(msg)), Advance(1, 0)])
         == s.(handlers := s.handlers + [DhcpSave(msg, r)], seen := s.seen + [|s.log|])
  {
    hide NormalizeMAC, PrintHardware, ReactAll;
    ReactTwo(net, s, Arrive(DhcpFind(msg)), Advance(1, 0));
    var t := React(net, s, Arrive(DhcpFind(msg)));
    var u := React(net, t, Advance(1, 0));
    assert u.handlers == s.handlers + [DhcpSave(msg, r)];
    assert u.log == s.log && u.seen == s.seen + [|s.log|];
  }

  lemma Installs(net: Option<Network>, s: System, mac: string, r: Record)
    requires s.shared.store == map[mac := r] && r.status == Discovered && |s.handlers| == |s.seen| == 2
    requires NormalizeMAC(mac) == mac && r.updatedAt == s.clock
    ensures ReactAll(net, s, [Arrive(InstallFind(mac)), Advance(2, 0), Advance(2, 0)])
         == System(s.shared.(store := map[mac := r.(status := Installing)]), s.handlers + [Done],
                   s.seen + [|s.log| + 1],
                   s.log + [Write(mac, r.(status := Installing), InstallApply(mac), |s.log|)], s.clock)
  {
    hide NormalizeMAC, ReactAll;
    ReactThree(net, s, Arrive(InstallFind(mac)), Advance(2, 0), Advance(2, 0));
    var t := React(net, s, Arrive(InstallFind(mac)));
    var u := React(net, t, Advance(2, 0));
    assert u == s.(handlers := s.handlers + [InstallApply(mac)], seen := s.seen + [|s.log|]);
    var v := React(net, u, Advance(2, 0));
    assert v.handlers == s.handlers + [Done];
    assert v.seen == s.seen + [|s.log| + 1];
    assert v.shared.store == map[mac := r.(status := Installing)];
  }

  lemma BeforeLastWrite(net: Option<Network>, start: int, mac: string, r: Record, msg: DhcpMessage)
    requires NormalizeMAC(PrintHardware(msg.hw)) == NormalizeMAC(mac) == mac && |mac| == 12 && PrintHardware(msg.hw) != ""
    requires msg.kind != Other
    requires r == Record(mac, "", "", "", "", "", Discovered, NEVER, start, start)
    ensures var i, events := r.(status := Installing), OverlappingRun(mac, msg);
            events[8] == Advance(1, 0) && events == events[..8] + [events[8]]
            && Run(net, start, events[..8])
            == System(Shared(map[mac := i], map[]), [Done, DhcpSave(msg, r), Done], [1, 1, 2],
                      [Write(mac, r, RegisterSave(r), 0), Write(mac, i, InstallApply(mac), 1)], start)
  {
    hide NormalizeMAC, PrintHardware, Run, ReactAll;
    var e1 := [Arrive(RegisterFind(mac, "")), Advance(0, 0), Advance(0, 0)];
    var e2 := [Arrive(DhcpFind(msg)), Advance(1, 0)];
    var e3 := [Arrive(InstallFind(mac)), Advance(2, 0), Advance(2, 0)];
    var s1 := System(Shared(map[mac := r], map[]), [Done], [1], [Write(mac, r, RegisterSave(r), 0)], start);
    assert Run(net, start, e1) == s1 by {
      Registers(net, start, mac, r);
      RunFromStart(net, start, e1);
    }
    var s2 := s1.(handlers := [Done, DhcpSave(msg, r)], seen := [1, 1]);
    assert Run(net, start, e1 + e2) == s2 by {
      RunAppend(net, start, e1, e2);
      DhcpReads(net, s1, mac, r, msg);
    }
    RunAppend(net, start, e1 + e2, e3);
    Installs(net, s2, mac, r);
    assert OverlappingRun(mac, msg)[..8] == e1 + e2 + e3;
  }

  // For any hardware address and any network: in that run the node goes from installing back to discovered.
  lemma OverlapGoesBackwards(net: Option<Network>, start: int, msg: DhcpMessage)
    requires |msg.hw| == 6 && msg.kind != Other
    ensures var log := Run(net, start, OverlappingRun(Hex(msg.hw), msg)).log;
            && |log| == 3
            && log[0].key == log[1].key == log[2].key == Hex(msg.hw)
            && log[0].record.status == Discovered && log[1].record.status == Installing
            && log[2].record.status == Discovered
    ensures !NoOverlap(net, start, OverlappingRun(Hex(msg.hw), msg))
  {
    var mac := Hex(msg.hw);
    NormalizePrinted(msg.hw);
    NormalizeFixedPoint(mac);
    assert PrintHardware(msg.hw) != "";
    hide NormalizeMAC, PrintHardware, Hex, OverlappingRun, Run, NoOverlap;
    var r := Record(mac, "", "", "", "", "", Discovered, NEVER, start, start);
    BeforeLastWrite(net, start, mac, r, msg);
    var events := OverlappingRun(mac, msg);
    OverlapLastWrite(net, start, events[..8], mac, r, msg);
    var log := Run(net, start, events).log;
    LastAppend(log[..1], log[1], mac);
    assert log[..2] == log[..1] + [log[1]];
    assert StageAt(log[..2], mac) == 2;
    if NoOverlap(net, start, events) {
      SerialRunsKeepLifeCycle(net, start, events, 2);
    }
  }

  lemma OverlapLastWrite(net: Option<Network>, start: int, before: seq<Event>, mac: string, r: Record, msg: DhcpMessage)
    requires NormalizeMAC(mac) == mac && mac != "" && r.mac == mac && r.status == Discovered
    requires var s := Run(net, start, before);
             |s.handlers| == |s.seen| == 3 && s.handlers[1] == DhcpSave(msg, r)
    ensures var s, t := Run(net, start, before), Run(net, start, before + [Advance(1, 0)]);
            && |t.log| == |s.log| + 1 && t.log[..|s.log|] == s.log
            && t.log[|s.log|].key == mac && t.log[|s.log|].record.status == Discovered
  {
  }
}
