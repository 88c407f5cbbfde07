/** The process-wide state of the IPC bus and the steps that change it:
    the pending queue and the callback registry that `IPC` instances
    (`notify`, `destroy`, the constructor) manage, and one pass of
    `observerEvents` over a file content already read. The module-level
    variables of src/IPC.ts and dist/esm/IPC.js (`timestamp`, `ipcList`,
    `pending`, `notifyCallbackMap`) are the fields of one `Runtime`; the
    callbacks' effect is the log of deliveries. */
module Bus {
  import opened Wrappers
  import opened Text
  import opened Codec
  import opened Merge
  import Fold

  /** `filterLines`' `.filter`: keeps the records some required process has
      not acknowledged, or all of them in process. */
  method PruneRecords<R(==)>(required: seq<string>, known: seq<string>, records: seq<R>, idsOf: R -> seq<string>, inProcess: bool) returns (kept: seq<R>)
    ensures kept == Prune(required, known, records, idsOf, inProcess)
  {
    kept := [];
    var i := 0;
    while i < |records|
      invariant 0 <= i <= |records|
      invariant kept == Prune(required, known, records[..i], idsOf, inProcess)
    {
      assert records[..i + 1][..i] == records[..i];
      if inProcess || !Acknowledged(required, known, idsOf(records[i])) {
        kept := kept + [records[i]];
      }
      i := i + 1;
    }
    assert records[..i] == records;
  }

  /** `lines.forEach(line => linesWrite.push(prepareLine(line)))`. */
  method PrepareAll(records: seq<seq<string>>) returns (lines: seq<string>)
    ensures lines == PrepareLines(records)
  {
    lines := [];
    var i := 0;
    while i < |records|
      invariant 0 <= i <= |records|
      invariant lines == PrepareLines(records[..i])
    {
      lines := lines + [PrepareLine(records[i])];
      i := i + 1;
    }
    assert records[..i] == records;
  }

  /** The esm `forEach` over the survivors: `prepareLine` of each, stopping
      with `None` at the first record with an `undefined` field. */
  method WriteLinesEsm(records: seq<EsmRecord>) returns (lines: Option<seq<string>>)
    ensures lines == EsmLines(records)
  {
    var acc: seq<string> := [];
    var i := 0;
    while i < |records|
      invariant 0 <= i <= |records|
      invariant EsmLines(records[..i]) == Some(acc)
    {
      assert records[..i + 1][..i] == records[..i];
      var line := EsmLine(records[i]);
      if line.None? {
        EsmLinesSpec(records);
        return None;
      }
      acc := acc + [line.value];
      i := i + 1;
    }
    assert records[..i] == records;
    return Some(acc);
  }

  class Runtime {
    /** Which build runs. */
    const build: Build
    /** `[pid]` for a worker, `[MASTER]` otherwise. */
    const ipcId: string
    /** The local epoch. */
    var timestamp: Num
    var ipcList: seq<string>
    /** Lines `notify` queued and no pass has written yet. */
    var pending: seq<string>
    /** The keys of `notifyCallbackMap`, in insertion order. */
    var registry: seq<string>
    /** Every callback call so far. */
    var log: seq<Delivery>

    /** The registry is a map's key list: no key occurs twice. */
    ghost predicate KeysDistinct()
      reads this`registry
    {
      NoDup(registry)
    }

    /** Every pending line came from `prepareLine`, so it cannot hold the
        fold marker. */
    ghost predicate PendingPrepared()
      reads this`pending
    {
      forall i :: 0 <= i < |pending| ==> MarkerFree(pending[i])
    }

    /** The module's initial state, at load time `now`. */
    constructor(build: Build, ipcId: string, now: int)
      ensures KeysDistinct() && PendingPrepared()
      ensures this.build == build && this.ipcId == ipcId
      ensures timestamp == Int(now) && ipcList == [ipcId]
      ensures pending == [] && registry == [] && log == []
    {
      this.build := build;
      this.ipcId := ipcId;
      timestamp := Int(now);
      ipcList := [ipcId];
      pending := [];
      registry := [];
      log := [];
    }

    /** `new IPC()`: `notifyCallbackMap.set(this.id, ...)`; a key already
        present keeps its place. */
    method Register(id: string)
      requires KeysDistinct()
      modifies this`registry
      ensures KeysDistinct()
      ensures registry == if id in old(registry) then old(registry) else old(registry) + [id]
    {
      if id !in registry {
        registry := registry + [id];
      }
    }

    /** `destroy()`: `notifyCallbackMap.delete(this.id)`. */
    method Destroy(id: string)
      requires KeysDistinct()
      modifies this`registry
      ensures KeysDistinct()
      ensures registry == Remove(old(registry), id)
      ensures id !in registry
      ensures |registry| == if id in old(registry) then |old(registry)| - 1 else |old(registry)|
    {
      RemoveLength(registry, id);
      registry := Remove(registry, id);
    }

    /** `notifyCallbackMap.forEach(callback => callback(content))`. */
    method Dispatch(payload: string)
      modifies this`log
      ensures log == old(log) + Broadcast(registry, payload)
    {
      var j := 0;
      while j < |registry|
        invariant 0 <= j <= |registry|
        invariant log == old(log) + Broadcast(registry[..j], payload)
      {
        assert Broadcast(registry[..j + 1], payload) == Broadcast(registry[..j], payload) + [Delivery(registry[j], payload)];
        log := log + [Delivery(registry[j], payload)];
        j := j + 1;
      }
      assert registry[..j] == registry;
    }

    /** The esm `forEach((callback, id) => { if (id !== this.id) ... })`. */
    method DispatchExcept(self: string, payload: string)
      modifies this`log
      ensures log == old(log) + Broadcast(Remove(registry, self), payload)
    {
      var j := 0;
      while j < |registry|
        invariant 0 <= j <= |registry|
        invariant log == old(log) + Broadcast(Remove(registry[..j], self), payload)
      {
        RemoveSnoc(registry[..j], self, registry[j]);
        assert registry[..j + 1] == registry[..j] + [registry[j]];
        var sent := Broadcast(Remove(registry[..j], self), payload);
        if registry[j] != self {
          assert Broadcast(Remove(registry[..j + 1], self), payload) == sent + [Delivery(registry[j], payload)];
          log := log + [Delivery(registry[j], payload)];
        }
        j := j + 1;
      }
      assert registry[..j] == registry;
    }

    /** `IPC.notify(event, message, justOut)` with `json` the stringified
        content and `now` its timestamp. src queues `[json, ipcId]` and, when
        `justOut` is false, calls every callback; esm does nothing for a
        destroyed instance, queues `[now, json, ipcId]` and, when `justOut`
        is false, calls every callback but the sender's. `justOut` defaults
        to true in src and to false in esm. */
    method Notify(id: string, json: string, now: int, justOut: bool := build == Src)
      requires PendingPrepared()
      modifies this`pending, this`log
      ensures PendingPrepared()
      ensures build == Src ==>
        && pending == old(pending) + [PrepareLine([json, ipcId])]
        && log == old(log) + (if justOut then [] else Broadcast(registry, json))
      ensures build == Esm && id in registry ==>
        && pending == old(pending) + [PrepareLine([IntToString(now), json, ipcId])]
        && log == old(log) + (if justOut then [] else Broadcast(Remove(registry, id), json))
      ensures build == Esm && id !in registry ==> pending == old(pending) && log == old(log)
    {
      if build == Src {
        PreparedLineMarkerFree([json, ipcId]);
        pending := pending + [PrepareLine([json, ipcId])];
        if !justOut {
          Dispatch(json);
        }
      } else if id in registry {
        PreparedLineMarkerFree([IntToString(now), json, ipcId]);
        pending := pending + [PrepareLine([IntToString(now), json, ipcId])];
        if !justOut {
          DispatchExcept(id, json);
        }
      }
    }

    /** The header steps of a pass (src/IPC.ts:129-147): the stale reset or
        the adoption of the file's epoch, the fresh header and the join. */
    method ReadHeader(records: seq<seq<string>>, now: int) returns (header: seq<string>, lines: seq<seq<string>>, inProcess: bool)
      modifies this`timestamp
      ensures HeaderStep(records, old(timestamp), now, ipcId) == HeaderOut(header, lines, timestamp, inProcess)
    {
      header := if records == [] then [] else records[0];
      lines := if records == [] then [] else records[1..];
      inProcess := DiffBelow(timestamp, Int(now), EpochWindow);
      if header != [] && !SameNum(timestamp, ParseInt(header[0])) {
        if ipcId !in header && DiffAbove(ParseInt(header[0]), timestamp, EpochWindow) {
          header := [];
          lines := [];
          inProcess := true;
        } else {
          timestamp := ParseInt(header[0]);
        }
      }
      if header == [] {
        header := [NumToString(timestamp)];
        inProcess := true;
      }
      if ipcId !in header {
        header := header + [ipcId];
        inProcess := true;
      }
    }

    /** The stability-window steps (src/IPC.ts:155-170). */
    method UpdateStability(lines: seq<seq<string>>, now: int) returns (stability: seq<seq<string>>)
      modifies this`ipcList
      ensures StabilityStep(lines, now, ipcId) == StabilityOut(stability, ipcList)
    {
      stability := LastN(Filter(IsStability, lines), KeptWindows);
      if JoinsWindow(stability, now) {
        stability := stability[..|stability| - 1] + [stability[|stability| - 1] + [ipcId]];
      } else {
        stability := stability + [[StabilityTag, IntToString(now), ipcId]];
      }
      stability := stability[..|stability| - 1] + [Dedup(stability[|stability| - 1])];
      ipcList := Dedup(Concat(MembersOf(stability)));
    }

    /** src's `.map`: each line not yet acknowledged is parsed, delivered to
        every callback and acknowledged; a parse failure throws. */
    method MapLinesSrc(lines: seq<seq<string>>, inProcess: bool, parses: iset<string>) returns (mapped: seq<seq<string>>, ok: bool)
      modifies this`log
      ensures var d := MapSrc(lines, inProcess, ipcId, registry, parses);
        mapped == d.records && ok == d.ok && log == old(log) + d.deliveries
    {
      mapped := [];
      ok := true;
      ghost var sent: seq<Delivery> := [];
      var i := 0;
      while i < |lines| && ok
        invariant 0 <= i <= |lines|
        invariant MapSrc(lines[..i], inProcess, ipcId, registry, parses) == Dispatched(mapped, sent, ok)
        invariant log == old(log) + sent
      {
        assert lines[..i + 1][..i] == lines[..i];
        var line := lines[i];
        if !inProcess && ipcId !in line {
          if line == [] || line[0] !in parses {
            ok := false;
          } else {
            Dispatch(line[0]);
            sent := sent + Broadcast(registry, line[0]);
            line := line + [ipcId];
          }
        }
        mapped := mapped + [line];
        i := i + 1;
      }
      if ok {
        assert lines[..i] == lines;
      } else {
        MapSrcStops(lines, i, inProcess, ipcId, registry, parses);
      }
    }

    /** The esm `.map`: each record not yet acknowledged is delivered when
        its content parses, and acknowledged either way. */
    method MapLinesEsm(records: seq<EsmRecord>, inProcess: bool, parses: iset<string>) returns (mapped: seq<EsmRecord>)
      modifies this`log
      ensures var d := MapEsm(records, inProcess, ipcId, registry, parses);
        mapped == d.records && log == old(log) + d.deliveries
    {
      mapped := [];
      ghost var sent: seq<Delivery> := [];
      var i := 0;
      while i < |records|
        invariant 0 <= i <= |records|
        invariant MapEsm(records[..i], inProcess, ipcId, registry, parses) == Dispatched(mapped, sent, true)
        invariant log == old(log) + sent
      {
        assert records[..i + 1][..i] == records[..i];
        var r := records[i];
        if !inProcess && ipcId !in r.acks {
          if r.content.Some? && r.content.value in parses {
            Dispatch(r.content.value);
            sent := sent + Broadcast(registry, r.content.value);
          }
          r := r.(acks := r.acks + [ipcId]);
        }
        mapped := mapped + [r];
        i := i + 1;
      }
      assert records[..i] == records;
    }
  
    /** The message lines through the build's `filterLines` and the
        `prepareLine` of every survivor; `ok` is false when it throws. */
    method FilterLines(h: HeaderOut, st: StabilityOut, parses: iset<string>) returns (linesWrite: seq<string>, ok: bool)
      requires h.header != []
      modifies this`log
      ensures var f := FilterMessages(build, h, st, ipcId, registry, parses);
        ok == f.ok && (ok ==> linesWrite == f.written) && log == old(log) + f.deliveries
    {
      var header, inProcess := h.header, h.inProcess;
      var messages := Filter(IsMessage, h.lines);
      if build == Src {
        var mapped;
        mapped, ok := MapLinesSrc(messages, inProcess, parses);
        linesWrite := [];
        if ok {
          var kept := PruneRecords(Tail(header), header, mapped, Fields, inProcess);
          linesWrite := PrepareAll(kept);
        }
      } else {
        var esmHeader := [header[0]] + st.ipcList;
        var sorted := SortBySequence(messages);
        var mapped := MapLinesEsm(ToEsmAll(sorted), inProcess, parses);
        var kept := PruneRecords(Tail(esmHeader), Tail(esmHeader), mapped, Acks, inProcess);
        var w := WriteLinesEsm(kept);
        ok := w.Some?;
        linesWrite := if ok then w.value else [];
      }
    }

    /** The end of a pass that did not throw: the pending queue is drained
        into the lines out of process, and the new text is written, folded
        by the esm build, when it differs from `content`. */
    method Complete(content: string, h: HeaderOut, st: StabilityOut, linesWrite: seq<string>) returns (outcome: Outcome)
      modifies this`pending
      ensures pending == old(pending) || pending == []
      ensures var e := Conclude(build, content, h.header, st.windows, h.inProcess, linesWrite, old(pending));
        outcome == e.outcome && pending == e.pending
    {
      var lw := linesWrite;
      if !h.inProcess {
        lw := lw + pending;
        pending := [];
      }
      var newData := Serialize(NewLines(h.header, st.windows, lw));
      if newData == content {
        outcome := NoWrite;
      } else if build == Esm {
        var folded := Fold.BreakLimitString(newData);
        outcome := Write(folded);
      } else {
        outcome := Write(newData);
      }
    }

    /** The first half of a pass: the header steps and the stability
        steps over the file's text. */
    method ReadFile(raw: string, now: int) returns (content: string, h: HeaderOut, st: StabilityOut)
      modifies this`timestamp, this`ipcList
      ensures ReadOf(build, raw, old(timestamp), now, ipcId, content, h, st)
      ensures timestamp == h.timestamp && ipcList == st.ipcList
    {
      content := if build == Esm then Fold.InverseBreakLimitString(raw) else raw;
      var records := ParseFile(content);
      var header, lines, inProcess := ReadHeader(records, now);
      h := HeaderOut(header, lines, timestamp, inProcess);
      var stability := UpdateStability(lines, now);
      st := StabilityOut(stability, ipcList);
    }

    /** The second half of a pass: the filter, then the drain and write
        unless the filter throws. */
    method FilterAndComplete(content: string, h: HeaderOut, st: StabilityOut, parses: iset<string>) returns (outcome: Outcome)
      requires h.header != []
      modifies this`pending, this`log
      ensures pending == old(pending) || pending == []
      ensures var p := Finish(build, content, h, st, FilterMessages(build, h, st, ipcId, registry, parses), old(pending));
        && outcome == p.outcome && pending == p.pending && log == old(log) + p.deliveries
    {
      var linesWrite, ok := FilterLines(h, st, parses);
      if ok {
        outcome := Complete(content, h, st, linesWrite);
      } else {
        outcome := Aborted;
      }
    }

    /** One pass once the lock is held: its new state and its outcome are
        those of `Pass`. */
    method RunPass(raw: string, now: int, parses: iset<string>) returns (outcome: Outcome)
      modifies this`timestamp, this`ipcList, this`pending, this`log
      ensures pending == old(pending) || pending == []
      ensures var p := Pass(build, raw, old(timestamp), now, ipcId, old(pending), old(registry), parses);
        && outcome == p.outcome && timestamp == p.timestamp && ipcList == p.ipcList
        && pending == p.pending && log == old(log) + p.deliveries
    {
      ghost var timestamp0 := timestamp;
      var content, h, st := ReadFile(raw, now);
      PassIsFinish(build, raw, timestamp0, now, ipcId, pending, registry, parses, content, h, st);
      outcome := FilterAndComplete(content, h, st, parses);
    }

    /** `observerEvents` over the file's text `raw` at time `now`: nothing
        happens while another process holds the lock; otherwise one pass
        runs (src/IPC.ts:122-188, dist/esm/IPC.js:119-168), and what the esm
        build writes unfolds to the lines of the new file. */
    method ObserverEvents(raw: string, now: int, locked: bool, parses: iset<string>) returns (outcome: Outcome)
      requires PendingPrepared()
      modifies this`timestamp, this`ipcList, this`pending, this`log
      ensures PendingPrepared()
      ensures locked ==>
        && outcome == Busy && timestamp == old(timestamp) && ipcList == old(ipcList)
        && pending == old(pending) && log == old(log)
      ensures !locked ==>
        var p := Pass(build, raw, old(timestamp), now, ipcId, old(pending), old(registry), parses);
        && outcome == p.outcome && timestamp == p.timestamp && ipcList == p.ipcList
        && pending == p.pending && log == old(log) + p.deliveries
        && (build == Esm && outcome.Write? ==> FileContent(Esm, outcome.data) == Serialize(p.written))
    {
      if locked {
        return Busy;
      }
      EsmReadBack(raw, timestamp, now, ipcId, pending, registry, parses);
      outcome := RunPass(raw, now, parses);
    }
  }
}
