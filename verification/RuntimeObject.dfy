/**
 `reload_config` and `refresh_tools_list` of src/runtime/core.rs, and the debounce methods, on the
 fields they update in place: each run by itself, and tied to the steps of the interleaved models.
 */
module RuntimeObject {
  import opened Wrappers
  import L = RuntimeLists
  import D = Debounce

  /** The steps of a reload that nobody interrupts. */
  function ReloadSteps(engine: L.EngineId, payload: L.Bytes): seq<L.Event> {
    [L.ReloadBuild(0, engine, payload), L.ReloadCompare(0), L.ReloadSwap(0), L.ReloadWrite(0), L.ReloadNotify(0)]
  }

  lemma ReloadAlone(engines: L.Engines, s: L.State, engine: L.EngineId, payload: L.Bytes)
    requires s.reloads == map[] && engine !in s.known && engines.makes(engine, payload)
    ensures var run := ReloadSteps(engine, payload);
            var tell := s.cache != payload && engines.notifies(engine);
            && L.Run(engines, s, run)
            && L.After(engines, s, run) == s.(
                 engine := engine, cache := payload, known := s.known + {engine},
                 notified := s.notified + if tell then 1 else 0)
  {
    var s1 := L.Next(engines, s, L.ReloadBuild(0, engine, payload)).value;
    var s2 := L.Next(engines, s1, L.ReloadCompare(0)).value;
    var s3 := L.Next(engines, s2, L.ReloadSwap(0)).value;
    var s4 := L.Next(engines, s3, L.ReloadWrite(0)).value;
    var s5 := L.Next(engines, s4, L.ReloadNotify(0)).value;
    assert s5.reloads == map[];
    var r4 := [L.ReloadNotify(0)];
    var r3 := [L.ReloadWrite(0)] + r4;
    var r2 := [L.ReloadSwap(0)] + r3;
    var r1 := [L.ReloadCompare(0)] + r2;
    L.ExtendRun(engines, s4, L.ReloadNotify(0), []);
    L.ExtendRun(engines, s3, L.ReloadWrite(0), r4);
    L.ExtendRun(engines, s2, L.ReloadSwap(0), r3);
    L.ExtendRun(engines, s1, L.ReloadCompare(0), r2);
    L.ExtendRun(engines, s, L.ReloadBuild(0, engine, payload), r1);
    assert ReloadSteps(engine, payload) == [L.ReloadBuild(0, engine, payload)] + r1;
  }

  /** The steps of a refresh that nobody interrupts; it stops early when nothing has changed. */
  function RefreshSteps(cache: L.Bytes, payload: L.Bytes): seq<L.Event> {
    [L.RefreshBegin, L.RefreshReadCache, L.RefreshCompute(payload)]
    + if cache == payload then [] else [L.RefreshCheck, L.RefreshWrite, L.RefreshNotify]
  }

  lemma RefreshAlone(engines: L.Engines, s: L.State, payload: L.Bytes)
    requires s.refresh.None? && engines.makes(s.engine, payload)
    ensures var run := RefreshSteps(s.cache, payload);
            var tell := s.cache != payload && engines.notifies(s.engine);
            && L.Run(engines, s, run)
            && L.After(engines, s, run) == s.(cache := payload, notified := s.notified + if tell then 1 else 0)
  {
    var s1 := L.Next(engines, s, L.RefreshBegin).value;
    var s2 := L.Next(engines, s1, L.RefreshReadCache).value;
    var s3 := L.Next(engines, s2, L.RefreshCompute(payload)).value;
    var tail: seq<L.Event> := [];
    if s.cache != payload {
      var s4 := L.Next(engines, s3, L.RefreshCheck).value;
      var s5 := L.Next(engines, s4, L.RefreshWrite).value;
      L.ExtendRun(engines, s5, L.RefreshNotify, []);
      L.ExtendRun(engines, s4, L.RefreshWrite, [L.RefreshNotify]);
      L.ExtendRun(engines, s3, L.RefreshCheck, [L.RefreshWrite] + [L.RefreshNotify]);
      tail := [L.RefreshCheck] + ([L.RefreshWrite] + [L.RefreshNotify]);
    }
    L.ExtendRun(engines, s2, L.RefreshCompute(payload), tail);
    L.ExtendRun(engines, s1, L.RefreshReadCache, [L.RefreshCompute(payload)] + tail);
    L.ExtendRun(engines, s, L.RefreshBegin, [L.RefreshReadCache] + ([L.RefreshCompute(payload)] + tail));
    assert RefreshSteps(s.cache, payload)
        == [L.RefreshBegin] + ([L.RefreshReadCache] + ([L.RefreshCompute(payload)] + tail));
  }

  class Runtime {
    const engines: L.Engines
    var engine: L.EngineId
    var tools: L.Bytes
    var pending: set<D.Feature>
    /** The features whose debounced notifications were sent. */
    var announced: seq<D.Feature>
    /** List-changed notifications sent by reloads and refreshes, and engines ever built. */
    var notified: nat
    ghost var known: set<L.EngineId>

    ghost function View(): L.State
      reads this
    {
      L.State(engine, tools, map[], None, known, notified)
    }

    constructor (engines: L.Engines, engine: L.EngineId, tools: L.Bytes)
      ensures this.engines == engines && View() == L.Started(engine, tools) && pending == {} && announced == []
    {
      this.engines, this.engine, this.tools := engines, engine, tools;
      pending, announced, notified, known := {}, [], 0, {engine};
    }

    method CheckAndNotifyFeature(changed: bool, engine: L.EngineId)
      modifies this`notified
      ensures notified == old(notified) + if changed && engines.notifies(engine) then 1 else 0
    {
      if changed && engines.notifies(engine) {
        notified := notified + 1;
      }
    }

    method ReloadConfig(newEngine: L.EngineId, payload: L.Bytes)
      requires newEngine !in known && engines.makes(newEngine, payload)
      modifies this
      ensures L.Run(engines, old(View()), ReloadSteps(newEngine, payload))
      ensures View() == L.After(engines, old(View()), ReloadSteps(newEngine, payload))
      ensures engine == newEngine && tools == payload && pending == old(pending) && announced == old(announced)
      ensures notified == old(notified) + if old(tools) != payload && engines.notifies(newEngine) then 1 else 0
    {
      ReloadAlone(engines, View(), newEngine, payload);
      known := known + {newEngine};
      var toolsChanged := tools != payload;
      engine := newEngine;
      tools := payload;
      CheckAndNotifyFeature(toolsChanged, newEngine);
    }

    /** `payload` is what the current engine serialises to. */
    method RefreshToolsList(payload: L.Bytes) returns (changed: bool)
      requires engines.makes(engine, payload)
      modifies this
      ensures L.Run(engines, old(View()), RefreshSteps(old(tools), payload))
      ensures View() == L.After(engines, old(View()), RefreshSteps(old(tools), payload))
      ensures changed <==> old(tools) != payload
      ensures tools == payload && engine == old(engine) && pending == old(pending) && announced == old(announced)
      ensures notified == old(notified) + if changed && engines.notifies(engine) then 1 else 0
    {
      RefreshAlone(engines, View(), payload);
      var snapshot := engine;
      var oldPayload := tools;
      if oldPayload == payload {
        return false;
      }
      if snapshot != engine {
        return false;
      }
      changed := tools != payload;
      if changed {
        tools := payload;
      }
      CheckAndNotifyFeature(changed, engine);
    }

    /** Says whether a delayed flush has to be spawned. */
    method ScheduleRegistryListChanged(feature: D.Feature, enabled: bool, now: D.Time) returns (spawn: bool)
      modifies this`pending
      ensures forall timers ::
                var s := D.State(old(pending), D.Idle, timers);
                D.Next(s, D.Registry(feature, enabled, now))
                  == Some(D.State(pending, if spawn then D.Arming(feature) else D.Idle, timers))
    {
      if !enabled {
        return false;
      }
      spawn := feature !in pending;
      pending := pending + {feature};
      assert !spawn ==> pending == old(pending);
    }

    /**
     What a delayed task does once its timer is up; `enabled` is what the current configuration says about
     the feature then.
     */
    method FlushRegistryListChanged(feature: D.Feature, enabled: bool) returns (sent: bool)
      modifies this`pending, this`announced
      ensures sent <==> feature in old(pending) && enabled
      ensures announced == old(announced) + if sent then [feature] else []
      ensures forall worker, timers: map<D.TimerId, D.Timer>, id, now ::
                id in timers && timers[id].feature == feature && timers[id].since + D.DEBOUNCE <= now ==>
                  D.Next(D.State(old(pending), worker, timers), D.Flush(id, now))
                    == Some(D.State(pending, worker, timers - {id}))
    {
      if feature !in pending {
        assert pending - {feature} == pending;
        return false;
      }
      pending := pending - {feature};
      if !enabled {
        return false;
      }
      announced := announced + [feature];
      return true;
    }
  }
}
