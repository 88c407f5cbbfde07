/** The merge-and-prune pass of `observerEvents` as pure functions of what
    one pass reads: the file content, the local epoch `timestamp`, the
    clock `now`, this process's id, the pending queue and the callback
    registry. Both builds are covered: `Src` is src/IPC.ts, `Esm` is
    dist/esm/IPC.js. */
module Merge {
  import opened Wrappers
  import opened Text
  import opened Codec
  import Fold

  datatype Build = Src | Esm

  /** The first field of a stability-window record. */
  const StabilityTag: string := "stability_ipc_ids"

  /** `differenceInSeconds(...) < 5` and `> 5`, in milliseconds. */
  const EpochWindow: int := 5000

  /** `differenceInSeconds(...) < 25`, in milliseconds. */
  const StabilityWindow: int := 25000

  /** `slice(-5)`: how many stability windows are carried over. */
  const KeptWindows: nat := 5

  /** One call of a registered callback with the given notification text. */
  datatype Delivery = Delivery(callbackId: string, payload: string)

  /** `notifyCallbackMap.forEach(callback => callback(content))`. */
  function Broadcast(callbacks: seq<string>, payload: string): (r: seq<Delivery>)
    ensures |r| == |callbacks|
    ensures forall i :: 0 <= i < |r| ==> r[i] == Delivery(callbacks[i], payload)
  {
    seq(|callbacks|, i requires 0 <= i < |callbacks| => Delivery(callbacks[i], payload))
  }

  /** `header.slice(1)`. */
  function Tail(s: seq<string>): seq<string> {
    if s == [] then [] else s[1..]
  }

  // ---------------------------------------------------------------------------
  // Header

  datatype HeaderOut = HeaderOut(header: seq<string>, lines: seq<seq<string>>, timestamp: Num, inProcess: bool)

  /** The stale-epoch reset: a header written under another epoch, more
      than five seconds away, that does not know this process. */
  predicate Stale(header: seq<string>, timestamp: Num, ipcId: string) {
    header != [] && !SameNum(timestamp, ParseInt(header[0])) && ipcId !in header
    && DiffAbove(ParseInt(header[0]), timestamp, EpochWindow)
  }

  /** The header steps of a pass: split off the header, the stale reset or
      the adoption of the header's epoch, the fresh header, and the join. */
  function HeaderStep(records: seq<seq<string>>, timestamp: Num, now: int, ipcId: string): (h: HeaderOut)
    ensures h.header != [] && ipcId in h.header
  {
    var header0 := if records == [] then [] else records[0];
    var lines0 := if records == [] then [] else records[1..];
    var inProcess0 := DiffBelow(timestamp, Int(now), EpochWindow);
    var reset := Stale(header0, timestamp, ipcId);
    var adopt := header0 != [] && !SameNum(timestamp, ParseInt(header0[0])) && !reset;
    var header1 := if reset then [] else header0;
    var lines1 := if reset then [] else lines0;
    var ts := if adopt then ParseInt(header0[0]) else timestamp;
    var header2 := if header1 == [] then [NumToString(ts)] else header1;
    var header3 := if ipcId in header2 then header2 else header2 + [ipcId];
    HeaderOut(header3, lines1, ts, inProcess0 || reset || header1 == [] || ipcId !in header2)
  }

  /** The pass is "not in process" exactly when the local epoch is at least
      five seconds old and the file's header already lists this process. */
  lemma HeaderInProcessIff(records: seq<seq<string>>, timestamp: Num, now: int, ipcId: string)
    ensures HeaderStep(records, timestamp, now, ipcId).inProcess
        <==> DiffBelow(timestamp, Int(now), EpochWindow) || records == [] || ipcId !in records[0]
  {
  }

  /** A stale header is dropped with every line; a fresh header under the
      local epoch replaces it, and the pass is in process. */
  lemma HeaderStaleReset(records: seq<seq<string>>, timestamp: Num, now: int, ipcId: string)
    requires records != [] && Stale(records[0], timestamp, ipcId)
    ensures var h := HeaderStep(records, timestamp, now, ipcId);
      && h.lines == [] && h.inProcess && h.timestamp == timestamp
      && h.header == (if ipcId == NumToString(timestamp) then [ipcId] else [NumToString(timestamp), ipcId])
  {
  }

  /** Otherwise a non-empty header is kept, the local epoch becomes the
      header's, and `ipcId` is appended only when absent. */
  lemma HeaderAdopt(records: seq<seq<string>>, timestamp: Num, now: int, ipcId: string)
    requires records != [] && records[0] != [] && !Stale(records[0], timestamp, ipcId)
    ensures var h := HeaderStep(records, timestamp, now, ipcId);
      && h.lines == records[1..] && h.timestamp == ParseInt(records[0][0])
      && h.header == (if ipcId in records[0] then records[0] else records[0] + [ipcId])
  {
  }

  /** An empty file starts a header under the local epoch. */
  lemma HeaderFresh(records: seq<seq<string>>, timestamp: Num, now: int, ipcId: string)
    requires records == [] || records[0] == []
    ensures var h := HeaderStep(records, timestamp, now, ipcId);
      && h.inProcess && h.timestamp == timestamp
      && h.header == (if ipcId == NumToString(timestamp) then [ipcId] else [NumToString(timestamp), ipcId])
  {
  }

  // ---------------------------------------------------------------------------
  // Stability windows

  predicate IsStability(r: seq<string>) {
    r != [] && r[0] == StabilityTag
  }

  predicate IsMessage(r: seq<string>) {
    !IsStability(r)
  }

  /** `s.slice(-n)`. */
  function LastN<T>(s: seq<T>, n: nat): (r: seq<T>)
    ensures |r| <= n && |r| <= |s|
    ensures r == s[|s| - |r|..]
    ensures |s| >= n ==> |r| == n
  {
    if |s| <= n then s else s[|s| - n..]
  }

  /** `parseInt(w[1])`: when the window started. */
  function WindowStart(w: seq<string>): Num {
    if |w| > 1 then ParseInt(w[1]) else NaN
  }

  /** `([k, t, ...ids]) => ids`. */
  function Members(w: seq<string>): seq<string> {
    if |w| > 2 then w[2..] else []
  }

  function MembersOf(ws: seq<seq<string>>): (r: seq<seq<string>>)
    ensures |r| == |ws| && forall i :: 0 <= i < |ws| ==> r[i] == Members(ws[i])
  {
    seq(|ws|, i requires 0 <= i < |ws| => Members(ws[i]))
  }

  datatype StabilityOut = StabilityOut(windows: seq<seq<string>>, ipcList: seq<string>)

  /** Whether this pass joins the newest kept window rather than opening one. */
  predicate JoinsWindow(kept: seq<seq<string>>, now: int) {
    kept != [] && DiffBelow(WindowStart(kept[|kept| - 1]), Int(now), StabilityWindow)
  }

  /** The kept windows once this process has joined the newest or opened a
      new one: every window but the last is a kept one. */
  function Joined(kept: seq<seq<string>>, now: int, ipcId: string): (r: seq<seq<string>>)
    ensures |r| >= 1 && ipcId in r[|r| - 1]
    ensures forall i :: 0 <= i < |r| - 1 ==> i < |kept| && r[i] == kept[i]
    ensures r[|r| - 1] == if JoinsWindow(kept, now) then kept[|kept| - 1] + [ipcId]
                          else [StabilityTag, IntToString(now), ipcId]
  {
    if JoinsWindow(kept, now) then kept[..|kept| - 1] + [kept[|kept| - 1] + [ipcId]]
    else kept + [[StabilityTag, IntToString(now), ipcId]]
  }

  /** The stability windows `observerEvents` writes back, and `ipcList`: the
      last five windows of the file; this process joins the newest one when
      it started less than 25 seconds ago and opens a new one otherwise; the
      newest window is de-duplicated; `ipcList` is every member of every
      window, first occurrences only. */
  function StabilityStep(lines: seq<seq<string>>, now: int, ipcId: string): (s: StabilityOut)
    ensures 1 <= |s.windows| <= KeptWindows + 1
    ensures ipcId in s.windows[|s.windows| - 1] && NoDup(s.windows[|s.windows| - 1])
    ensures NoDup(s.ipcList)
  {
    var joined := Joined(LastN(Filter(IsStability, lines), KeptWindows), now, ipcId);
    var newest := Dedup(joined[|joined| - 1]);
    var windows := joined[..|joined| - 1] + [newest];
    assert windows[|windows| - 1] == newest;
    StabilityOut(windows, Dedup(Concat(MembersOf(windows))))
  }

  /** The newest window is the newest joined one, de-duplicated. */
  lemma NewestWindow(lines: seq<seq<string>>, now: int, ipcId: string)
    ensures var j := Joined(LastN(Filter(IsStability, lines), KeptWindows), now, ipcId);
      var w := StabilityStep(lines, now, ipcId).windows;
      |w| == |j| && w[|w| - 1] == Dedup(j[|j| - 1])
  {
    var j := Joined(LastN(Filter(IsStability, lines), KeptWindows), now, ipcId);
    var w := StabilityStep(lines, now, ipcId).windows;
    assert w == j[..|j| - 1] + [Dedup(j[|j| - 1])];
  }

  /** Every window but the newest is one of the file's stability records. */
  lemma StabilityCarried(lines: seq<seq<string>>, now: int, ipcId: string)
    ensures var s := StabilityStep(lines, now, ipcId);
      forall i :: 0 <= i < |s.windows| - 1 ==> s.windows[i] in lines && IsStability(s.windows[i])
  {
    var w := StabilityStep(lines, now, ipcId).windows;
    forall i | 0 <= i < |w| - 1 ensures w[i] in lines && IsStability(w[i]) {
      WindowCarried(lines, now, ipcId, i);
    }
  }

  lemma WindowCarried(lines: seq<seq<string>>, now: int, ipcId: string, i: nat)
    requires i < |StabilityStep(lines, now, ipcId).windows| - 1
    ensures var w := StabilityStep(lines, now, ipcId).windows;
      w[i] in lines && IsStability(w[i])
  {
    var f := Filter(IsStability, lines);
    var kept := LastN(f, KeptWindows);
    var joined := Joined(kept, now, ipcId);
    var w := StabilityStep(lines, now, ipcId).windows;
    assert w == joined[..|joined| - 1] + [Dedup(joined[|joined| - 1])];
    assert w[i] == joined[i] == kept[i];
    LastNMember(f, KeptWindows, i);
  }

  /** Every kept window is a stability record of the file. */
  lemma WindowKept(lines: seq<seq<string>>, i: nat)
    requires i < |LastN(Filter(IsStability, lines), KeptWindows)|
    ensures var kept := LastN(Filter(IsStability, lines), KeptWindows);
      kept[i] in lines && IsStability(kept[i])
  {
    LastNMember(Filter(IsStability, lines), KeptWindows, i);
  }

  lemma LastNMember<T>(s: seq<T>, n: nat, i: nat)
    requires i < |LastN(s, n)|
    ensures LastN(s, n)[i] in s
  {
    var r := LastN(s, n);
    var k := |s| - |r|;
    assert r == s[k..];
    assert r[i] == s[k + i];
  }

  /** The newest window is the newest kept one joined by this process when
      that started less than 25 seconds ago, and a window of this process
      alone, started now, otherwise. */
  lemma StabilityNewest(lines: seq<seq<string>>, now: int, ipcId: string)
    requires ipcId != StabilityTag && ParseInt(ipcId) == NaN
    ensures var kept := LastN(Filter(IsStability, lines), KeptWindows);
      var s := StabilityStep(lines, now, ipcId);
      s.windows[|s.windows| - 1]
        == if JoinsWindow(kept, now) then Dedup(kept[|kept| - 1] + [ipcId])
           else [StabilityTag, IntToString(now), ipcId]
  {
    var kept := LastN(Filter(IsStability, lines), KeptWindows);
    if !JoinsWindow(kept, now) {
      var w := [StabilityTag, IntToString(now), ipcId];
      TagIsNotANumber();
      ParseIntToString(now);
      NoDup3(StabilityTag, IntToString(now), ipcId);
      DedupOfNoDup(w);
    }
  }

  /** `ipcList` holds exactly the members of the windows. */
  lemma IpcListMembers(lines: seq<seq<string>>, now: int, ipcId: string, x: string)
    ensures var s := StabilityStep(lines, now, ipcId);
      x in s.ipcList <==> exists i :: 0 <= i < |s.windows| && x in Members(s.windows[i])
  {
    var s := StabilityStep(lines, now, ipcId);
    var ms := MembersOf(s.windows);
    InConcat(ms, x);
    if x in s.ipcList {
      var i :| 0 <= i < |ms| && x in ms[i];
      assert x in Members(s.windows[i]);
    }
    if exists i :: 0 <= i < |s.windows| && x in Members(s.windows[i]) {
      var i :| 0 <= i < |s.windows| && x in Members(s.windows[i]);
      assert x in ms[i];
    }
  }

  // ---------------------------------------------------------------------------
  // Acknowledgement and pruning

  /** `ids.filter(id => known.includes(id))`. */
  function Known(ids: seq<string>, known: seq<string>): (r: seq<string>)
    ensures forall x :: x in r <==> x in ids && x in known
  {
    Filter(x => x in known, ids)
  }

  /** `required.every(id => ids.filter(id => known.includes(id)).includes(id))`. */
  predicate Acknowledged(required: seq<string>, known: seq<string>, ids: seq<string>) {
    forall id :: id in required ==> id in Known(ids, known)
  }

  /** When every required id is known, a record is acknowledged exactly when
      it carries every required id. */
  lemma AcknowledgedIff(required: seq<string>, known: seq<string>, ids: seq<string>)
    requires forall id :: id in required ==> id in known
    ensures Acknowledged(required, known, ids) <==> forall id :: id in required ==> id in ids
  {
  }

  /** The `.filter` of `filterLines`: records every required process has
      acknowledged are dropped, unless the pass is in process. */
  function Prune<R(==)>(required: seq<string>, known: seq<string>, records: seq<R>, idsOf: R -> seq<string>, inProcess: bool): (r: seq<R>)
    ensures |r| <= |records|
  {
    if records == [] then []
    else
      var last := records[|records| - 1];
      Prune(required, known, records[..|records| - 1], idsOf, inProcess)
      + (if inProcess || !Acknowledged(required, known, idsOf(last)) then [last] else [])
  }

  /** A record survives the prune exactly when the pass is in process or
      some required process has not acknowledged it. */
  lemma {:induction false} PruneMembers<R(!new)>(required: seq<string>, known: seq<string>, records: seq<R>, idsOf: R -> seq<string>, inProcess: bool, x: R)
    ensures x in Prune(required, known, records, idsOf, inProcess)
        <==> x in records && (inProcess || !Acknowledged(required, known, idsOf(x)))
  {
    if records != [] {
      var init := records[..|records| - 1];
      PruneMembers(required, known, init, idsOf, inProcess, x);
      assert records == init + [records[|records| - 1]];
    }
  }

  /** Pruning keeps the input order: it distributes over concatenation. */
  lemma {:induction false} PruneAppend<R(!new)>(required: seq<string>, known: seq<string>, a: seq<R>, b: seq<R>, idsOf: R -> seq<string>, inProcess: bool)
    ensures Prune(required, known, a + b, idsOf, inProcess)
         == Prune(required, known, a, idsOf, inProcess) + Prune(required, known, b, idsOf, inProcess)
    decreases |b|
  {
    if b == [] {
      assert a + b == a;
    } else {
      var ab := a + b;
      var last := b[|b| - 1];
      var keep := if inProcess || !Acknowledged(required, known, idsOf(last)) then [last] else [];
      assert ab[..|ab| - 1] == a + b[..|b| - 1];
      assert ab[|ab| - 1] == last;
      assert Prune(required, known, ab, idsOf, inProcess) == Prune(required, known, a + b[..|b| - 1], idsOf, inProcess) + keep;
      assert Prune(required, known, b, idsOf, inProcess) == Prune(required, known, b[..|b| - 1], idsOf, inProcess) + keep;
      PruneAppend(required, known, a, b[..|b| - 1], idsOf, inProcess);
      AppendAssoc(Prune(required, known, a, idsOf, inProcess), Prune(required, known, b[..|b| - 1], idsOf, inProcess), keep);
    }
  }

  /** In process, pruning keeps everything. */
  lemma {:induction false} PruneInProcess<R(!new)>(required: seq<string>, known: seq<string>, records: seq<R>, idsOf: R -> seq<string>)
    ensures Prune(required, known, records, idsOf, true) == records
  {
    if records != [] {
      PruneInProcess(required, known, records[..|records| - 1], idsOf);
    }
  }

  datatype Acked<R> = Acked(record: R, deliveries: seq<Delivery>, ok: bool)

  datatype Dispatched<R> = Dispatched(records: seq<R>, deliveries: seq<Delivery>, ok: bool)

  /** The `.map` step of src's `filterLines` on one line: a line this
      process has not acknowledged has its first field parsed
      (`JSON.parse(line[0])`, which throws unless the text is in `parses`,
      the set of texts it accepts), is delivered to every callback, and
      gains `ipcId`. */
  function AckSrc(line: seq<string>, inProcess: bool, ipcId: string, registry: seq<string>, parses: iset<string>): Acked<seq<string>> {
    if inProcess || ipcId in line then Acked(line, [], true)
    else if line == [] || line[0] !in parses then Acked(line, [], false)
    else Acked(line + [ipcId], Broadcast(registry, line[0]), true)
  }

  /** src's `.map` over all lines; a throw stops it, after the deliveries of
      the lines before. */
  function MapSrc(lines: seq<seq<string>>, inProcess: bool, ipcId: string, registry: seq<string>, parses: iset<string>): Dispatched<seq<string>>
  {
    if lines == [] then Dispatched([], [], true)
    else
      var d := MapSrc(lines[..|lines| - 1], inProcess, ipcId, registry, parses);
      if !d.ok then d
      else
        var a := AckSrc(lines[|lines| - 1], inProcess, ipcId, registry, parses);
        Dispatched(d.records + [a.record], d.deliveries + a.deliveries, a.ok)
  }

  /** src's `.map` fails exactly when some line still to be acknowledged by
      this process has a first field that does not parse. */
  lemma {:induction false} MapSrcOk(lines: seq<seq<string>>, inProcess: bool, ipcId: string, registry: seq<string>, parses: iset<string>)
    ensures MapSrc(lines, inProcess, ipcId, registry, parses).ok
        <==> forall i :: 0 <= i < |lines| ==> AckSrc(lines[i], inProcess, ipcId, registry, parses).ok
  {
    if lines != [] {
      var init := lines[..|lines| - 1];
      MapSrcOk(init, inProcess, ipcId, registry, parses);
      assert forall i :: 0 <= i < |init| ==> init[i] == lines[i];
    }
  }

  /** Once a line has thrown, the lines after it change nothing. */
  lemma {:induction false} MapSrcStops(lines: seq<seq<string>>, k: nat, inProcess: bool, ipcId: string, registry: seq<string>, parses: iset<string>)
    requires k <= |lines| && !MapSrc(lines[..k], inProcess, ipcId, registry, parses).ok
    ensures MapSrc(lines, inProcess, ipcId, registry, parses) == MapSrc(lines[..k], inProcess, ipcId, registry, parses)
    decreases |lines| - k
  {
    if k < |lines| {
      var init := lines[..|lines| - 1];
      assert init[..k] == lines[..k];
      MapSrcStops(init, k, inProcess, ipcId, registry, parses);
    } else {
      assert lines[..k] == lines;
    }
  }

  /** When src's `.map` succeeds, each line is the acknowledged line. */
  lemma {:induction false} MapSrcLines(lines: seq<seq<string>>, inProcess: bool, ipcId: string, registry: seq<string>, parses: iset<string>)
    requires MapSrc(lines, inProcess, ipcId, registry, parses).ok
    ensures var d := MapSrc(lines, inProcess, ipcId, registry, parses);
      |d.records| == |lines|
      && forall i :: 0 <= i < |lines| ==> d.records[i] == AckSrc(lines[i], inProcess, ipcId, registry, parses).record
  {
    if lines != [] {
      var init := lines[..|lines| - 1];
      MapSrcLines(init, inProcess, ipcId, registry, parses);
      assert forall i :: 0 <= i < |init| ==> init[i] == lines[i];
    }
  }

  /** In process, src's `.map` changes no line and calls no callback. */
  lemma {:induction false} MapSrcInProcess(lines: seq<seq<string>>, ipcId: string, registry: seq<string>, parses: iset<string>)
    ensures MapSrc(lines, true, ipcId, registry, parses) == Dispatched(lines, [], true)
  {
    if lines != [] {
      MapSrcInProcess(lines[..|lines| - 1], ipcId, registry, parses);
    }
  }

  /** The ids `Prune` checks on a src line: the whole line, since src tests
      `line.includes(id)` over every field. */
  function Fields(line: seq<string>): seq<string> {
    line
  }

  datatype Filtered = Filtered(written: seq<string>, deliveries: seq<Delivery>, ok: bool)

  /** src's `filterLines(header, lines, inProcess)` followed by the
      `prepareLine` of every survivor. */
  function FilterSrc(header: seq<string>, lines: seq<seq<string>>, inProcess: bool, ipcId: string, registry: seq<string>, parses: iset<string>): Filtered {
    var d := MapSrc(lines, inProcess, ipcId, registry, parses);
    if !d.ok then Filtered([], d.deliveries, false)
    else Filtered(PrepareLines(Prune(Tail(header), header, d.records, Fields, inProcess)), d.deliveries, true)
  }

  /** `filterLines(header, lines, true)` returns its lines unchanged and
      calls no callback. */
  lemma FilterSrcInProcess(header: seq<string>, lines: seq<seq<string>>, ipcId: string, registry: seq<string>, parses: iset<string>)
    ensures FilterSrc(header, lines, true, ipcId, registry, parses) == Filtered(PrepareLines(lines), [], true)
  {
    MapSrcInProcess(lines, ipcId, registry, parses);
    PruneInProcess(Tail(header), header, lines, Fields);
  }

  /** Out of process, an acknowledged line survives the prune exactly when
      some process of `header.slice(1)` is missing from it. */
  lemma SrcSurvivesIff(header: seq<string>, line: seq<string>, records: seq<seq<string>>)
    ensures line in Prune(Tail(header), header, records, Fields, false)
        <==> line in records && exists id :: id in Tail(header) && id !in line
  {
    assert forall id :: id in Tail(header) ==> id in header;
    AcknowledgedIff(Tail(header), header, line);
    PruneMembers(Tail(header), header, records, Fields, false, line);
  }

  // ---------------------------------------------------------------------------
  // The esm build's filterLines: sorted, poison records acknowledged

  /** `parseInt(a[0])`: the sequence number of a record. */
  function Key(r: seq<string>): Num {
    if r == [] then NaN else ParseInt(r[0])
  }

  /** The comparator says `a` goes after `b`: `parseInt(a[0]) > parseInt(b[0])`
      (false whenever either is NaN). */
  predicate After(a: seq<string>, b: seq<string>) {
    Key(a).Int? && Key(b).Int? && Key(a).n > Key(b).n
  }

  function Insert(x: seq<string>, s: seq<seq<string>>): (r: seq<seq<string>>)
    ensures multiset(r) == multiset(s) + multiset{x}
  {
    if s == [] then [x]
    else if After(s[0], x) then [x] + s
    else
      assert s == [s[0]] + s[1..];
      [s[0]] + Insert(x, s[1..])
  }

  /** `lines.sort(comparator)`, as a stable insertion sort: each record goes
      before the first record already placed that the comparator puts after
      it. */
  function SortBySequence(s: seq<seq<string>>): (r: seq<seq<string>>)
    ensures multiset(r) == multiset(s)
  {
    if s == [] then []
    else
      assert s == s[..|s| - 1] + [s[|s| - 1]];
      Insert(s[|s| - 1], SortBySequence(s[..|s| - 1]))
  }

  predicate Ascending(s: seq<seq<string>>) {
    forall i, j :: 0 <= i < j < |s| ==> !After(s[i], s[j])
  }

  lemma {:induction false} InsertAscending(x: seq<string>, s: seq<seq<string>>)
    requires Ascending(s)
    ensures Ascending(Insert(x, s))
  {
    if s != [] && !After(s[0], x) {
      var t := s[1..];
      assert Ascending(t);
      InsertAscending(x, t);
      var r := Insert(x, t);
      forall j | 0 <= j < |r| ensures !After(s[0], r[j]) {
        InsertMember(x, t, r[j]);
        if r[j] != x {
          var k :| 0 <= k < |t| && t[k] == r[j];
          assert s[k + 1] == t[k];
        }
      }
      ConsAscending(s[0], r);
      assert Insert(x, s) == [s[0]] + r;
    }
  }

  /** What an insertion holds: the inserted record and the others. */
  lemma InsertMember(x: seq<string>, s: seq<seq<string>>, y: seq<string>)
    requires y in Insert(x, s)
    ensures y == x || y in s
  {
    assert y in multiset(Insert(x, s));
  }

  /** A record that goes after none of an ascending sequence can head it. */
  lemma ConsAscending(a: seq<string>, r: seq<seq<string>>)
    requires Ascending(r) && forall j :: 0 <= j < |r| ==> !After(a, r[j])
    ensures Ascending([a] + r)
  {
    var u := [a] + r;
    forall i, j | 0 <= i < j < |u| ensures !After(u[i], u[j]) {
      assert u[j] == r[j - 1];
      if i > 0 {
        assert u[i] == r[i - 1];
      }
    }
  }

  /** Of any two records whose sequence fields parse, the one with the
      smaller number comes first; a record whose field is NaN compares with
      nothing. */
  lemma {:induction false} SortAscending(s: seq<seq<string>>)
    ensures Ascending(SortBySequence(s))
  {
    if s != [] {
      var init := s[..|s| - 1];
      SortAscending(init);
      InsertAscending(s[|s| - 1], SortBySequence(init));
    }
  }

  /** The records whose sequence field reads as `q`. */
  function WithKey(q: Num): seq<string> -> bool {
    r => Key(r) == q
  }

  /** Insertion places `x` after every record with the same sequence field. */
  lemma {:induction false} InsertStable(x: seq<string>, s: seq<seq<string>>, q: Num)
    requires Ascending(s)
    ensures Filter(WithKey(q), Insert(x, s)) == Filter(WithKey(q), s) + (if Key(x) == q then [x] else [])
  {
    var p := WithKey(q);
    if s == [] {
      FilterSingle(p, x);
    } else if After(s[0], x) {
      InsertFrontStable(x, s, q);
    } else {
      var t := s[1..];
      assert Ascending(t);
      InsertStable(x, t, q);
      assert Insert(x, s) == [s[0]] + Insert(x, t);
      FilterAppend(p, [s[0]], Insert(x, t));
      FilterAppend(p, [s[0]], t);
      assert s == [s[0]] + t;
      AppendAssoc(Filter(p, [s[0]]), Filter(p, t), if Key(x) == q then [x] else []);
    }
  }

  /** A record that goes before the head of an ascending sequence shares its
      sequence field with none of it. */
  lemma InsertFrontStable(x: seq<string>, s: seq<seq<string>>, q: Num)
    requires Ascending(s) && s != [] && After(s[0], x)
    ensures Filter(WithKey(q), [x] + s) == Filter(WithKey(q), s) + (if Key(x) == q then [x] else [])
  {
    var p := WithKey(q);
    FilterSingle(p, x);
    FilterAppend(p, [x], s);
    if Key(x) == q {
      forall i | 0 <= i < |s| ensures !p(s[i]) {
        if i > 0 {
          assert !After(s[0], s[i]);
        }
      }
      FilterNone(p, s);
    }
  }

  /** The sort is stable: records with the same sequence field, NaN
      included, keep their input order. */
  lemma {:induction false} SortStable(s: seq<seq<string>>, q: Num)
    ensures Filter(WithKey(q), SortBySequence(s)) == Filter(WithKey(q), s)
  {
    if s != [] {
      var n := |s| - 1;
      var init, x := s[..n], s[n];
      assert s == init + [x];
      var t := SortBySequence(init);
      var p := WithKey(q);
      var tail := if Key(x) == q then [x] else [];
      SortStable(init, q);
      SortAscending(init);
      SortSnoc(s);
      InsertStable(x, t, q);
      assert Filter(p, SortBySequence(s)) == Filter(p, init) + tail;
      FilterSnoc(init, x, q);
    }
  }

  lemma SortSnoc(s: seq<seq<string>>)
    requires s != []
    ensures SortBySequence(s) == Insert(s[|s| - 1], SortBySequence(s[..|s| - 1]))
  {
  }

  lemma FilterSnoc(s: seq<seq<string>>, x: seq<string>, q: Num)
    ensures Filter(WithKey(q), s + [x]) == Filter(WithKey(q), s) + (if Key(x) == q then [x] else [])
  {
    FilterAppend(WithKey(q), s, [x]);
    FilterSingle(WithKey(q), x);
  }

  /** A message record as the esm `filterLines` destructures it:
      `[time, content, ...ipcIds]`; a missing field is `undefined`. */
  datatype EsmRecord = EsmRecord(time: Option<string>, content: Option<string>, acks: seq<string>)

  function Field(line: seq<string>, k: nat): Option<string> {
    if k < |line| then Some(line[k]) else None
  }

  function ToEsm(line: seq<string>): EsmRecord {
    EsmRecord(Field(line, 0), Field(line, 1), if |line| > 2 then line[2..] else [])
  }

  function ToEsmAll(lines: seq<seq<string>>): (r: seq<EsmRecord>)
    ensures |r| == |lines| && forall i :: 0 <= i < |lines| ==> r[i] == ToEsm(lines[i])
  {
    seq(|lines|, i requires 0 <= i < |lines| => ToEsm(lines[i]))
  }

  /** The ids `Prune` checks on an esm record: the `...ipcIds` after the
      time and the content. */
  function Acks(r: EsmRecord): seq<string> {
    r.acks
  }

  /** The esm `.map` on one record: a record this process has not
      acknowledged is delivered when its content parses, and gains `ipcId`
      whether it parses or not. */
  function AckEsm(r: EsmRecord, inProcess: bool, ipcId: string, registry: seq<string>, parses: iset<string>): Acked<EsmRecord> {
    if inProcess || ipcId in r.acks then Acked(r, [], true)
    else
      var deliveries := if r.content.Some? && r.content.value in parses then Broadcast(registry, r.content.value) else [];
      Acked(r.(acks := r.acks + [ipcId]), deliveries, true)
  }

  function MapEsm(records: seq<EsmRecord>, inProcess: bool, ipcId: string, registry: seq<string>, parses: iset<string>): (d: Dispatched<EsmRecord>)
    ensures |d.records| == |records|
  {
    if records == [] then Dispatched([], [], true)
    else
      var d := MapEsm(records[..|records| - 1], inProcess, ipcId, registry, parses);
      var a := AckEsm(records[|records| - 1], inProcess, ipcId, registry, parses);
      Dispatched(d.records + [a.record], d.deliveries + a.deliveries, true)
  }

  /** Out of process, every record leaves the esm `.map` acknowledged by this
      process, and only payloads that parse are delivered. */
  lemma {:induction false} MapEsmAcknowledges(records: seq<EsmRecord>, ipcId: string, registry: seq<string>, parses: iset<string>)
    ensures forall i :: 0 <= i < |records| ==> ipcId in MapEsm(records, false, ipcId, registry, parses).records[i].acks
    ensures forall x :: x in MapEsm(records, false, ipcId, registry, parses).deliveries ==> x.payload in parses
  {
    if records != [] {
      var init := records[..|records| - 1];
      MapEsmAcknowledges(init, ipcId, registry, parses);
      var d0 := MapEsm(init, false, ipcId, registry, parses);
      var a := AckEsm(records[|records| - 1], false, ipcId, registry, parses);
      var d := MapEsm(records, false, ipcId, registry, parses);
      assert d.records == d0.records + [a.record];
      assert ipcId in a.record.acks;
      forall i | 0 <= i < |records| ensures ipcId in d.records[i].acks {
        if i < |init| {
          assert d.records[i] == d0.records[i];
          assert ipcId in d0.records[i].acks;
        } else {
          assert d.records[i] == a.record;
        }
      }
    }
  }

  /** An acknowledged record is never delivered again. */
  lemma AckEsmIdempotent(r: EsmRecord, inProcess: bool, ipcId: string, registry: seq<string>, parses: iset<string>)
    ensures var a := AckEsm(r, inProcess, ipcId, registry, parses);
      AckEsm(a.record, inProcess, ipcId, registry, parses) == Acked(a.record, [], true)
  {
  }

  /** The line of a record: `prepareLine([time, content, ...ipcIds])`, which
      throws when `time` or `content` is `undefined`. */
  function EsmLine(r: EsmRecord): Option<string> {
    if HasLine(r) then Some(PrepareLine([r.time.value, r.content.value] + r.acks)) else None
  }

  /** `prepareLine` does not throw on the record: it has a time and a content. */
  predicate HasLine(r: EsmRecord) {
    r.time.Some? && r.content.Some?
  }

  /** The `forEach` that pushes the line of each survivor; it stops at the
      first throw. */
  function EsmLines(records: seq<EsmRecord>): (r: Option<seq<string>>)
    ensures r.Some? ==> |r.value| == |records|
  {
    if records == [] then Some([])
    else
      var init := EsmLines(records[..|records| - 1]);
      var last := EsmLine(records[|records| - 1]);
      if init.None? || last.None? then None else Some(init.value + [last.value])
  }

  /** The lines are written exactly when every record has one, and then
      they are the records' lines in order. */
  lemma EsmLinesSpec(records: seq<EsmRecord>)
    ensures EsmLines(records).Some? <==> forall i :: 0 <= i < |records| ==> HasLine(records[i])
    ensures EsmLines(records).Some? ==> forall i :: 0 <= i < |records| ==> Some(EsmLines(records).value[i]) == EsmLine(records[i])
  {
    if EsmLines(records).Some? {
      forall i | 0 <= i < |records| ensures HasLine(records[i]) && Some(EsmLines(records).value[i]) == EsmLine(records[i]) {
        EsmLinesAt(records, i);
      }
    } else if forall i :: 0 <= i < |records| ==> HasLine(records[i]) {
      EsmLinesAllLines(records);
    }
  }

  /** The line at `i` is the line of the `i`-th record. */
  lemma {:induction false} EsmLinesAt(records: seq<EsmRecord>, i: nat)
    requires EsmLines(records).Some? && i < |records|
    ensures HasLine(records[i]) && Some(EsmLines(records).value[i]) == EsmLine(records[i])
    decreases |records|
  {
    var front := records[..|records| - 1];
    var init := EsmLines(front);
    var last := EsmLine(records[|records| - 1]);
    assert init.Some? && last.Some?;
    var v := EsmLines(records).value;
    assert v == init.value + [last.value];
    if i < |front| {
      EsmLinesAt(front, i);
      assert front[i] == records[i];
      assert v[i] == init.value[i];
    }
  }

  /** No record throws, so the lines are written. */
  lemma {:induction false} EsmLinesAllLines(records: seq<EsmRecord>)
    requires forall i :: 0 <= i < |records| ==> HasLine(records[i])
    ensures EsmLines(records).Some?
  {
    if records != [] {
      var front := records[..|records| - 1];
      assert forall i :: 0 <= i < |front| ==> front[i] == records[i];
      EsmLinesAllLines(front);
    }
  }

  /** The esm `filterLines([header[0], ...ipcList], lines, inProcess)`
      followed by the `prepareLine` of every survivor. */
  function FilterEsm(header: seq<string>, lines: seq<seq<string>>, inProcess: bool, ipcId: string, registry: seq<string>, parses: iset<string>): Filtered {
    var d := MapEsm(ToEsmAll(SortBySequence(lines)), inProcess, ipcId, registry, parses);
    var kept := Prune(Tail(header), Tail(header), d.records, Acks, inProcess);
    match EsmLines(kept)
    case None => Filtered([], d.deliveries, false)
    case Some(w) => Filtered(w, d.deliveries, true)
  }

  /** Out of process, a record leaves the file exactly when every process
      of `ipcList` is among its acknowledgements. */
  lemma EsmDroppedIff(ipcList: seq<string>, epoch: string, records: seq<EsmRecord>, r: EsmRecord)
    requires r in records
    ensures r !in Prune(Tail([epoch] + ipcList), Tail([epoch] + ipcList), records, Acks, false)
        <==> forall id :: id in ipcList ==> id in r.acks
  {
    assert Tail([epoch] + ipcList) == ipcList;
    AcknowledgedIff(ipcList, ipcList, r.acks);
    PruneMembers(ipcList, ipcList, records, Acks, false, r);
  }

  /** A message record with a single field is kept in process, and its
      `undefined` content makes the whole pass throw. */
  lemma EsmOneFieldRecordAborts(header: seq<string>, lines: seq<seq<string>>, ipcId: string, registry: seq<string>, parses: iset<string>, k: nat)
    requires k < |lines| && |lines[k]| == 1
    ensures !FilterEsm(header, lines, true, ipcId, registry, parses).ok
  {
    var sorted := SortBySequence(lines);
    assert lines[k] in multiset(sorted);
    var j :| 0 <= j < |sorted| && sorted[j] == lines[k];
    var recs := ToEsmAll(sorted);
    MapEsmInProcess(recs, ipcId, registry, parses);
    PruneInProcess(Tail(header), Tail(header), recs, Acks);
    assert !HasLine(recs[j]);
    EsmLinesSpec(recs);
  }

  lemma {:induction false} MapEsmInProcess(records: seq<EsmRecord>, ipcId: string, registry: seq<string>, parses: iset<string>)
    ensures MapEsm(records, true, ipcId, registry, parses) == Dispatched(records, [], true)
  {
    if records != [] {
      MapEsmInProcess(records[..|records| - 1], ipcId, registry, parses);
    }
  }

  // ---------------------------------------------------------------------------
  // Own records

  /** A record `notify` of src enqueues, `[JSON.stringify(content), ipcId]`,
      is never delivered back to the process that wrote it. */
  lemma SrcOwnRecordNotRedelivered(json: string, ipcId: string, inProcess: bool, registry: seq<string>, parses: iset<string>)
    ensures var line := ReadLine(PrepareLine([json, ipcId]));
      AckSrc(line, inProcess, ipcId, registry, parses) == Acked(line, [], true)
  {
    ReadPrepare([json, ipcId]);
  }

  /** The same for the esm record `[timestamp, JSONStringify(content), ipcId]`. */
  lemma EsmOwnRecordNotRedelivered(time: string, json: string, ipcId: string, inProcess: bool, registry: seq<string>, parses: iset<string>)
    ensures var r := ToEsm(ReadLine(PrepareLine([time, json, ipcId])));
      AckEsm(r, inProcess, ipcId, registry, parses) == Acked(r, [], true)
  {
    ReadPrepare([time, json, ipcId]);
    assert [time, json, ipcId][2..] == [ipcId];
  }

  /** The tag of a stability record does not read as a number. */
  lemma TagIsNotANumber()
    ensures ParseInt(StabilityTag) == NaN
  {
    assert StabilityTag[0] == 's';
    NotANumber(StabilityTag);
  }

  /** A window whose first two entries differ keeps them first when it is
      de-duplicated, so any other id of it is still a member. */
  lemma DedupKeepsMember(w: seq<string>, x: string)
    requires |w| >= 2 && w[0] != w[1] && x in w && x != w[0] && x != w[1]
    ensures x in Members(Dedup(w))
  {
    DedupKeepsPair(w);
    var d := Dedup(w);
    var k :| 0 <= k < |d| && d[k] == x;
    assert k >= 2;
    assert d[2..][k - 2] == x;
  }

  /** The first two entries of a window, when they differ, stay first. */
  lemma DedupKeepsPair(w: seq<string>)
    requires |w| >= 2 && w[0] != w[1]
    ensures |Dedup(w)| >= 2 && Dedup(w)[0] == w[0] && Dedup(w)[1] == w[1]
  {
    var p := [w[0], w[1]];
    assert p + w[2..] == w;
    DedupOfNoDup(p);
    DedupPrefix(p, w[2..]);
  }

  /** A window this process opens has it as its only member. */
  lemma NewWindowOwnMember(now: int, ipcId: string)
    requires ipcId != StabilityTag && ParseInt(ipcId) == NaN
    ensures Members(Dedup([StabilityTag, IntToString(now), ipcId])) == [ipcId]
  {
    var w := [StabilityTag, IntToString(now), ipcId];
    TagIsNotANumber();
    ParseIntToString(now);
    NoDup3(StabilityTag, IntToString(now), ipcId);
    DedupOfNoDup(w);
  }

  /** The newest window, once joined and de-duplicated, has this process
      among its members. */
  lemma JoinedOwnMember(kept: seq<seq<string>>, now: int, ipcId: string)
    requires ipcId != StabilityTag && ParseInt(ipcId) == NaN
    requires kept != [] ==> IsStability(kept[|kept| - 1])
    ensures var j := Joined(kept, now, ipcId);
      ipcId in Members(Dedup(j[|j| - 1]))
  {
    TagIsNotANumber();
    if JoinsWindow(kept, now) {
      var w := kept[|kept| - 1];
      var t := w[1];
      assert ParseInt(t).Int?;
      var ab := w + [ipcId];
      assert ab[0] == StabilityTag && ab[1] == t && ab[|ab| - 1] == ipcId;
      DedupKeepsMember(ab, ipcId);
    } else {
      NewWindowOwnMember(now, ipcId);
    }
  }

  /** This process is listed in `ipcList` after every pass (its ids have the
      shape `[pid]` or `[MASTER]`, which are neither numbers nor the tag). */
  lemma OwnIdListed(lines: seq<seq<string>>, now: int, ipcId: string)
    requires ipcId != StabilityTag && ParseInt(ipcId) == NaN
    ensures ipcId in StabilityStep(lines, now, ipcId).ipcList
  {
    var kept := LastN(Filter(IsStability, lines), KeptWindows);
    if kept != [] {
      WindowKept(lines, |kept| - 1);
    }
    JoinedOwnMember(kept, now, ipcId);
    NewestWindow(lines, now, ipcId);
    var w := StabilityStep(lines, now, ipcId).windows;
    assert ipcId in Members(w[|w| - 1]);
    IpcListMembers(lines, now, ipcId, ipcId);
  }

  /** Both real shapes of a process id satisfy what `OwnIdListed` needs. */
  lemma ProcessIdsAreNotNumbers(pid: string)
    ensures ParseInt("[MASTER]") == NaN
    ensures ParseInt("[" + pid + "]") == NaN
  {
    assert "[MASTER]"[0] == '[';
    NotANumber("[MASTER]");
    assert ("[" + pid + "]")[0] == '[';
    NotANumber("[" + pid + "]");
  }

  // ---------------------------------------------------------------------------
  // The pass

  /** How a pass ends: the file is written with `data`, left as it is,
      the pass throws before writing, or another process holds the lock. */
  datatype Outcome = Write(data: string) | NoWrite | Aborted | Busy

  /** What one pass leaves behind: the new epoch, `ipcList`, the pending
      queue, the deliveries made, the lines of the new file (empty when the
      pass aborted) and whether the file is written. */
  datatype PassOut = PassOut(timestamp: Num, ipcList: seq<string>, pending: seq<string>, deliveries: seq<Delivery>, written: seq<string>, outcome: Outcome)

  /** The text the pass works on: the esm build unfolds the file first. */
  function FileContent(build: Build, raw: string): string {
    if build == Esm then Fold.InverseBreakLimitString(raw) else raw
  }

  /** The lines of `newData`: the header, the windows, and the message lines
      de-duplicated. */
  function NewLines(header: seq<string>, windows: seq<seq<string>>, linesWrite: seq<string>): seq<string> {
    [PrepareLine(header)] + PrepareLines(windows) + Dedup(linesWrite)
  }

  /** The message lines of the file through the build's `filterLines`. */
  function FilterMessages(build: Build, h: HeaderOut, st: StabilityOut, ipcId: string, registry: seq<string>, parses: iset<string>): Filtered
    requires h.header != []
  {
    var messages := Filter(IsMessage, h.lines);
    if build == Src then FilterSrc(h.header, messages, h.inProcess, ipcId, registry, parses)
    else FilterEsm([h.header[0]] + st.ipcList, messages, h.inProcess, ipcId, registry, parses)
  }

  /** How a pass that did not throw ends: the outcome, the pending queue
      left behind and the lines of the new file. */
  datatype Ending = Ending(outcome: Outcome, pending: seq<string>, written: seq<string>)

  /** The end of a pass that did not throw: the pending lines join the
      survivors unless in process, and the file is written, folded by the
      esm build, when the new text differs from what was read. */
  function Conclude(build: Build, content: string, header: seq<string>, windows: seq<seq<string>>, inProcess: bool, linesWrite: seq<string>, pending: seq<string>): Ending {
    var lw := if inProcess then linesWrite else linesWrite + pending;
    var written := NewLines(header, windows, lw);
    var newData := Serialize(written);
    var outcome :=
      if newData == content then NoWrite
      else Write(if build == Esm then Fold.Folded(newData, Fold.MaxLineLength) else newData);
    Ending(outcome, if inProcess then pending else [], written)
  }

  /** The end of a pass: an abort keeps the pending queue and writes
      nothing; otherwise `Conclude`. */
  function Finish(build: Build, content: string, h: HeaderOut, st: StabilityOut, f: Filtered, pending: seq<string>): PassOut {
    if !f.ok then PassOut(h.timestamp, st.ipcList, pending, f.deliveries, [], Aborted)
    else
      var e := Conclude(build, content, h.header, st.windows, h.inProcess, f.written, pending);
      PassOut(h.timestamp, st.ipcList, e.pending, f.deliveries, e.written, e.outcome)
  }

  /** One pass of `observerEvents` once the lock is held: lines 120-188 of
      src/IPC.ts and 119-168 of dist/esm/IPC.js. */
  function Pass(build: Build, raw: string, timestamp: Num, now: int, ipcId: string, pending: seq<string>, registry: seq<string>, parses: iset<string>): PassOut {
    var content := FileContent(build, raw);
    var h := HeaderStep(ParseFile(content), timestamp, now, ipcId);
    var st := StabilityStep(h.lines, now, ipcId);
    Finish(build, content, h, st, FilterMessages(build, h, st, ipcId, registry, parses), pending)
  }

  /** `content`, `h` and `st` are what the first half of a pass over `raw`
      computes: the text, the header steps and the stability steps. */
  predicate ReadOf(build: Build, raw: string, timestamp: Num, now: int, ipcId: string, content: string, h: HeaderOut, st: StabilityOut) {
    && content == FileContent(build, raw)
    && h == HeaderStep(ParseFile(content), timestamp, now, ipcId)
    && st == StabilityStep(h.lines, now, ipcId)
  }

  /** The rest of a pass is the filter over the first half's header and
      stability windows, then `Finish`. */
  lemma PassIsFinish(build: Build, raw: string, timestamp: Num, now: int, ipcId: string, pending: seq<string>, registry: seq<string>, parses: iset<string>, content: string, h: HeaderOut, st: StabilityOut)
    requires ReadOf(build, raw, timestamp, now, ipcId, content, h, st)
    ensures h.header != []
    ensures Pass(build, raw, timestamp, now, ipcId, pending, registry, parses)
         == Finish(build, content, h, st, FilterMessages(build, h, st, ipcId, registry, parses), pending)
  {
  }

  /** The end of a pass aborts exactly when the filter throws; the pending
      queue is drained into the new file's lines exactly when the pass did
      not abort and is out of process, and is left intact otherwise. */
  lemma FinishPending(build: Build, content: string, h: HeaderOut, st: StabilityOut, f: Filtered, pending: seq<string>)
    ensures var p := Finish(build, content, h, st, f, pending);
      && (p.outcome.Aborted? <==> !f.ok)
      && p.pending == (if f.ok && !h.inProcess then [] else pending)
      && (f.ok && !h.inProcess ==> forall l :: l in pending ==> l in p.written)
  {
    if f.ok && !h.inProcess {
      var p := Finish(build, content, h, st, f, pending);
      var lw := f.written + pending;
      assert p.written == NewLines(h.header, st.windows, lw);
      forall l | l in pending ensures l in p.written {
        assert l in lw;
        assert l in Dedup(lw);
      }
    }
  }

  /** The exchange is settled when the local epoch is five seconds old or
      more and the file's header lists this process: only then does a pass
      deliver, acknowledge, prune and drain. */
  predicate Settled(build: Build, raw: string, timestamp: Num, now: int, ipcId: string) {
    var records := ParseFile(FileContent(build, raw));
    !DiffBelow(timestamp, Int(now), EpochWindow) && records != [] && ipcId in records[0]
  }

  /** The pending queue is drained into the file exactly when the pass is
      settled and does not abort; otherwise it is left intact. */
  lemma PassPending(build: Build, raw: string, timestamp: Num, now: int, ipcId: string, pending: seq<string>, registry: seq<string>, parses: iset<string>)
    ensures var p := Pass(build, raw, timestamp, now, ipcId, pending, registry, parses);
      && p.pending == (if !p.outcome.Aborted? && Settled(build, raw, timestamp, now, ipcId) then [] else pending)
      && (!p.outcome.Aborted? && Settled(build, raw, timestamp, now, ipcId) ==> forall l :: l in pending ==> l in p.written)
  {
    var content := FileContent(build, raw);
    var h := HeaderStep(ParseFile(content), timestamp, now, ipcId);
    var st := StabilityStep(h.lines, now, ipcId);
    HeaderInProcessIff(ParseFile(content), timestamp, now, ipcId);
    FinishPending(build, content, h, st, FilterMessages(build, h, st, ipcId, registry, parses), pending);
  }

  /** A pass that did not abort writes the header, the windows and the
      message lines without duplicates, and writes the file exactly when
      the new text differs from what was read, folded by the esm build. */
  lemma FinishWrites(build: Build, content: string, h: HeaderOut, st: StabilityOut, f: Filtered, pending: seq<string>)
    ensures var p := Finish(build, content, h, st, f, pending);
      !p.outcome.Aborted? ==>
        && |p.written| >= 1 + |st.windows|
        && p.written[0] == PrepareLine(h.header)
        && p.written[1..1 + |st.windows|] == PrepareLines(st.windows)
        && NoDup(p.written[1 + |st.windows|..])
        && (p.outcome.Write? <==> Serialize(p.written) != content)
        && (p.outcome.Write? && build == Src ==> p.outcome.data == Serialize(p.written))
        && (p.outcome.Write? && build == Esm ==> p.outcome.data == Fold.Folded(Serialize(p.written), Fold.MaxLineLength))
  {
    if f.ok {
      var p := Finish(build, content, h, st, f, pending);
      var lw := if h.inProcess then f.written else f.written + pending;
      assert p.written == NewLines(h.header, st.windows, lw);
      assert p.written[1 + |st.windows|..] == Dedup(lw);
    }
  }

  /** The same for a whole pass over `raw`. */
  lemma PassWrites(build: Build, raw: string, timestamp: Num, now: int, ipcId: string, pending: seq<string>, registry: seq<string>, parses: iset<string>)
    ensures var p := Pass(build, raw, timestamp, now, ipcId, pending, registry, parses);
      var h := HeaderStep(ParseFile(FileContent(build, raw)), timestamp, now, ipcId);
      var st := StabilityStep(h.lines, now, ipcId);
      !p.outcome.Aborted? ==>
        && |p.written| >= 1 + |st.windows|
        && p.written[0] == PrepareLine(h.header)
        && p.written[1..1 + |st.windows|] == PrepareLines(st.windows)
        && NoDup(p.written[1 + |st.windows|..])
        && (p.outcome.Write? <==> Serialize(p.written) != FileContent(build, raw))
        && (p.outcome.Write? && build == Src ==> p.outcome.data == Serialize(p.written))
        && (p.outcome.Write? && build == Esm ==> p.outcome.data == Fold.Folded(Serialize(p.written), Fold.MaxLineLength))
  {
    var content := FileContent(build, raw);
    var h := HeaderStep(ParseFile(content), timestamp, now, ipcId);
    var st := StabilityStep(h.lines, now, ipcId);
    FinishWrites(build, content, h, st, FilterMessages(build, h, st, ipcId, registry, parses), pending);
  }

  // ---------------------------------------------------------------------------
  // Reading back what the esm build writes

  /** A line that cannot hold the fold marker: it has no `<`. */
  predicate MarkerFree(line: string) {
    Fold.Marker[0] !in line
  }

  lemma PreparedLineMarkerFree(record: seq<string>)
    ensures MarkerFree(PrepareLine(record))
  {
    if '<' in PrepareLine(record) {
      LineChars(record, '<');
    }
  }

  lemma PreparedLinesMarkerFree(records: seq<seq<string>>)
    ensures forall i :: 0 <= i < |records| ==> MarkerFree(PrepareLines(records)[i])
  {
    forall i | 0 <= i < |records| ensures MarkerFree(PrepareLines(records)[i]) {
      PreparedLineMarkerFree(records[i]);
    }
  }

  lemma EsmLinesMarkerFree(records: seq<EsmRecord>)
    requires EsmLines(records).Some?
    ensures forall i :: 0 <= i < |EsmLines(records).value| ==> MarkerFree(EsmLines(records).value[i])
  {
    var w := EsmLines(records).value;
    forall i | 0 <= i < |w| ensures MarkerFree(w[i]) {
      var r := records[i];
      EsmLinesAt(records, i);
      PreparedLineMarkerFree([r.time.value, r.content.value] + r.acks);
    }
  }

  /** The lines of a new file are marker-free when the message lines are. */
  lemma NewLinesMarkerFree(header: seq<string>, windows: seq<seq<string>>, linesWrite: seq<string>)
    requires forall i :: 0 <= i < |linesWrite| ==> MarkerFree(linesWrite[i])
    ensures forall i :: 0 <= i < |NewLines(header, windows, linesWrite)| ==> MarkerFree(NewLines(header, windows, linesWrite)[i])
  {
    var dd := Dedup(linesWrite);
    forall i | 0 <= i < |dd| ensures MarkerFree(dd[i]) {
      assert dd[i] in linesWrite;
    }
    PreparedLineMarkerFree(header);
    PreparedLinesMarkerFree(windows);
  }

  /** Marker-free lines survive folding and unfolding. */
  lemma SerializeFoldRoundTrip(w: seq<string>)
    requires forall i :: 0 <= i < |w| ==> MarkerFree(w[i])
    ensures Fold.InverseBreakLimitString(Fold.Folded(Serialize(w), Fold.MaxLineLength)) == Serialize(w)
  {
    NotInJoin(w, "\n", '<');
    NoMatchWithoutFirstChar(Serialize(w), Fold.Marker);
    Fold.FoldRoundTrip(Serialize(w), Fold.MaxLineLength);
  }

  /** Every line the esm `filterLines` hands back is marker-free. */
  lemma FilterEsmMarkerFree(header: seq<string>, lines: seq<seq<string>>, inProcess: bool, ipcId: string, registry: seq<string>, parses: iset<string>)
    ensures var f := FilterEsm(header, lines, inProcess, ipcId, registry, parses);
      f.ok ==> forall i :: 0 <= i < |f.written| ==> MarkerFree(f.written[i])
  {
    var d := MapEsm(ToEsmAll(SortBySequence(lines)), inProcess, ipcId, registry, parses);
    var kept := Prune(Tail(header), Tail(header), d.records, Acks, inProcess);
    if EsmLines(kept).Some? {
      EsmLinesMarkerFree(kept);
    }
  }

  /** The end of an esm pass writes a folded text that unfolds to its lines. */
  lemma FinishReadBack(content: string, h: HeaderOut, st: StabilityOut, f: Filtered, pending: seq<string>)
    requires forall i :: 0 <= i < |f.written| ==> MarkerFree(f.written[i])
    requires forall i :: 0 <= i < |pending| ==> MarkerFree(pending[i])
    ensures var p := Finish(Esm, content, h, st, f, pending);
      p.outcome.Write? ==> FileContent(Esm, p.outcome.data) == Serialize(p.written)
  {
    if f.ok {
      var lw := if h.inProcess then f.written else f.written + pending;
      assert forall i :: 0 <= i < |lw| ==> MarkerFree(lw[i]);
      NewLinesMarkerFree(h.header, st.windows, lw);
      SerializeFoldRoundTrip(NewLines(h.header, st.windows, lw));
    }
  }

  /** The esm build reads back exactly the text it wrote: folding is undone
      by the unfolding every pass starts with, as long as the pending lines
      (all produced by `prepareLine`) hold no `<`. */
  lemma EsmReadBack(raw: string, timestamp: Num, now: int, ipcId: string, pending: seq<string>, registry: seq<string>, parses: iset<string>)
    requires forall i :: 0 <= i < |pending| ==> MarkerFree(pending[i])
    ensures var p := Pass(Esm, raw, timestamp, now, ipcId, pending, registry, parses);
      p.outcome.Write? ==> FileContent(Esm, p.outcome.data) == Serialize(p.written)
  {
    var content := FileContent(Esm, raw);
    var h := HeaderStep(ParseFile(content), timestamp, now, ipcId);
    var st := StabilityStep(h.lines, now, ipcId);
    FilterEsmMarkerFree([h.header[0]] + st.ipcList, Filter(IsMessage, h.lines), h.inProcess, ipcId, registry, parses);
    FinishReadBack(content, h, st, FilterMessages(Esm, h, st, ipcId, registry, parses), pending);
  }
}
