// Grouping jobs into tasks, and listing for each interval the jobs bonded to it.

module Bonding {
  import opened TableFormat
  import opened TaskPacket
  import L = LocalList
  import P = Parser

  // ---- runs of one major id -----------------------------------------------------------------

  /** How many leading jobs share the given major id. */
  function RunLength(js: seq<SsJob>, id: Word): (r: nat)
    ensures r <= |js|
    ensures forall i :: 0 <= i < r ==> js[i].job.majorId == id
    ensures r < |js| ==> js[r].job.majorId != id
  {
    if js == [] || js[0].job.majorId != id then 0 else 1 + RunLength(js[1..], id)
  }

  /** The maximal runs of equal major id. */
  function Runs(js: seq<SsJob>): (rs: seq<seq<SsJob>>)
    ensures js != [] ==> rs != []
    decreases |js|
  {
    if js == [] then []
    else
      var r := RunLength(js, js[0].job.majorId);
      [js[..r]] + Runs(js[r..])
  }

  function Concat(rs: seq<seq<SsJob>>): seq<SsJob> {
    if rs == [] then [] else rs[0] + Concat(rs[1..])
  }

  /** Grouping loses no job, each group has one major id, and neighbours differ. */
  lemma {:induction false} RunsSplit(js: seq<SsJob>)
    ensures Concat(Runs(js)) == js
    ensures forall k :: 0 <= k < |Runs(js)| ==> Runs(js)[k] != [] && SameMajor(Runs(js)[k])
    ensures forall k :: 0 < k < |Runs(js)| ==> MajorOf(Runs(js)[k - 1]) != MajorOf(Runs(js)[k])
    decreases |js|
  {
    if js == [] {
    } else {
      hide Runs, SameMajor, MajorOf, RunLength, Concat;
      var r := RunLength(js, js[0].job.majorId);
      RunsSplit(js[r..]);
      RunsStep(js);
      FirstRunSame(js, r);
      ConcatGrow(js, r, Runs(js[r..]));
      if r < |js| {
        NextRunDiffers(js, r);
      } else {
        NoRuns();
      }
      GroupInFront(js[..r], Runs(js[r..]));
    }
  }

  /** One more group in front, with another id than the next one. */
  lemma GroupInFront(g: seq<SsJob>, rest: seq<seq<SsJob>>)
    requires g != [] && SameMajor(g) && (rest != [] ==> MajorOf(g) != MajorOf(rest[0]))
    requires forall k :: 0 <= k < |rest| ==> rest[k] != [] && SameMajor(rest[k])
    requires forall k :: 0 < k < |rest| ==> MajorOf(rest[k - 1]) != MajorOf(rest[k])
    ensures var rs := [g] + rest;
      && (forall k :: 0 <= k < |rs| ==> rs[k] != [] && SameMajor(rs[k]))
      && (forall k :: 0 < k < |rs| ==> MajorOf(rs[k - 1]) != MajorOf(rs[k]))
  {
    hide SameMajor, MajorOf;
    var rs := [g] + rest;
    forall k | 0 < k < |rs| ensures MajorOf(rs[k - 1]) != MajorOf(rs[k]) {
      if k > 1 {
        assert rs[k - 1] == rest[k - 2] && rs[k] == rest[k - 1];
      }
    }
  }

  lemma ConcatGrow(js: seq<SsJob>, r: nat, rest: seq<seq<SsJob>>)
    requires r <= |js| && Concat(rest) == js[r..]
    ensures Concat([js[..r]] + rest) == js
  {
    assert ([js[..r]] + rest)[1..] == rest && js[..r] + js[r..] == js;
  }

  lemma NextRunDiffers(js: seq<SsJob>, r: nat)
    requires js != [] && r == RunLength(js, js[0].job.majorId) < |js|
    ensures Runs(js[r..]) != [] && MajorOf(js[..r]) != MajorOf(Runs(js[r..])[0])
  {
    RunsStart(js[r..]);
  }

  lemma FirstRunSame(js: seq<SsJob>, r: nat)
    requires js != [] && r == RunLength(js, js[0].job.majorId)
    ensures SameMajor(js[..r])
  {
  }

  lemma RunsStart(js: seq<SsJob>)
    requires js != []
    ensures Runs(js)[0] != [] && Runs(js)[0][0] == js[0]
  {
  }

  ghost predicate SameMajor(js: seq<SsJob>) {
    forall i :: 0 <= i < |js| ==> js[i].job.majorId == MajorOf(js)
  }

  function MajorOf(js: seq<SsJob>): Word {
    if js == [] then 0 else js[0].job.majorId
  }

  /** Jobs of one task stand together: whatever follows the end of a run has another id. */
  ghost predicate Contiguous(js: seq<SsJob>) {
    forall i, j, k :: 0 <= i < j < k < |js| && js[i].job.majorId == js[k].job.majorId
      ==> js[j].job.majorId == js[i].job.majorId
  }

  lemma {:induction false} InSomeRun(js: seq<SsJob>, k: nat)
    requires k < |Runs(js)|
    ensures exists i :: 0 <= i < |js| && js[i].job.majorId == MajorOf(Runs(js)[k])
    decreases |js|
  {
    var r := RunLength(js, js[0].job.majorId);
    if k == 0 {
      assert js[0].job.majorId == MajorOf(Runs(js)[0]);
    } else {
      InSomeRun(js[r..], k - 1);
      var i :| 0 <= i < |js[r..]| && js[r..][i].job.majorId == MajorOf(Runs(js[r..])[k - 1]);
      assert js[r + i].job.majorId == MajorOf(Runs(js)[k]);
    }
  }

  lemma ContiguousTail(js: seq<SsJob>, r: nat)
    requires Contiguous(js) && r <= |js|
    ensures Contiguous(js[r..])
  {
  }

  lemma NoReturn(js: seq<SsJob>, r: nat, k: nat)
    requires Contiguous(js) && 0 < r <= k < |js| && js[r].job.majorId != js[0].job.majorId
    ensures js[k].job.majorId != js[0].job.majorId
  {
  }

  lemma FirstRunIsAlone(js: seq<SsJob>, r: nat, k: nat)
    requires Contiguous(js) && 0 < r <= |js| && (r < |js| ==> js[r].job.majorId != js[0].job.majorId)
    requires k < |Runs(js[r..])|
    ensures MajorOf(Runs(js[r..])[k]) != js[0].job.majorId
  {
    hide Contiguous, Runs, MajorOf;
    var rest := js[r..];
    InSomeRun(rest, k);
    var i :| 0 <= i < |rest| && rest[i].job.majorId == MajorOf(Runs(rest)[k]);
    NoReturn(js, r, r + i);
  }

  /** When the jobs of each task stand together, every task gets exactly one group. */
  lemma {:induction false} OneRunPerId(js: seq<SsJob>, a: nat, b: nat)
    requires Contiguous(js) && a < b < |Runs(js)|
    ensures MajorOf(Runs(js)[a]) != MajorOf(Runs(js)[b])
    decreases |js|
  {
    hide Contiguous, Runs, MajorOf;
    SomeRun(js);
    var r := RunLength(js, js[0].job.majorId);
    RunsStep(js);
    if a > 0 {
      ContiguousTail(js, r);
      OneRunPerId(js[r..], a - 1, b - 1);
    } else {
      FirstRunIsAlone(js, r, b - 1);
    }
  }

  lemma SomeRun(js: seq<SsJob>)
    requires Runs(js) != []
    ensures js != []
  {
  }

  /** The number of the run that job k stands in. */
  function RunIndex(js: seq<SsJob>, k: nat): (n: nat)
    requires k < |js|
    decreases |js|
  {
    var r := RunLength(js, js[0].job.majorId);
    if k < r then 0 else 1 + RunIndex(js[r..], k - r)
  }

  lemma RunIndexNext(js: seq<SsJob>, r: nat, k: nat)
    requires js != [] && r == RunLength(js, js[0].job.majorId) && r + k < |js|
    ensures RunIndex(js, r + k) == 1 + RunIndex(js[r..], k)
  {
    hide RunLength;
  }

  // ---- jobs to tasks --------------------------------------------------------------------------

  /** A finished task: its buffer as it is handed on. */
  datatype Packet = Packet(pid: Word, bin: seq<Byte>, ssTskLen: nat, words: seq<int>)

  /** The packet holds exactly these jobs. */
  ghost predicate Packed(p: Packet, js: seq<SsJob>) {
    && js != [] && CountsMatch(js) && JobIntrCount(js) > 0
    && p.ssTskLen == TaskLength(|js|, JobIntrCount(js)) == WORD * |p.words|
    && Used(js, |js|) <= |p.words| && p.words == Image(js, |js|, |p.words|)
    && p.bin == js[0].job.binary
  }

  /** A group can be packed: it has a bond, and its counters are right. */
  predicate Packable(js: seq<SsJob>) {
    CountsMatch(js) && JobIntrCount(js) != 0
  }

  predicate AllPackable(rs: seq<seq<SsJob>>) {
    forall k :: 0 <= k < |rs| ==> Packable(L.Reversed(rs[k]))
  }

  ghost predicate HasBond(js: seq<SsJob>) {
    exists i :: 0 <= i < |js| && js[i].job.intr != []
  }

  /** Every task of the list has a bond. */
  ghost predicate EachTaskBonded(jobs: seq<SsJob>) {
    forall k :: 0 <= k < |Runs(jobs)| ==> HasBond(Runs(jobs)[k])
  }

  lemma {:induction false} BondIsCounted(js: seq<SsJob>)
    requires CountsMatch(js)
    ensures JobIntrCount(js) != 0 <==> HasBond(js)
    decreases |js|
  {
    if js != [] {
      BondIsCounted(js[1..]);
      if js[0].job.intr == [] && HasBond(js) {
        var i :| 0 <= i < |js| && js[i].job.intr != [];
        assert js[1..][i - 1] == js[i];
      }
    }
  }

  lemma {:induction false} ReversedAt(js: seq<SsJob>, i: nat)
    requires i < |js|
    ensures |L.Reversed(js)| == |js| && L.Reversed(js)[i] == js[|js| - 1 - i]
    decreases |js|
  {
    if |js| > 1 {
      ReversedAt(js[1..], if i < |js| - 1 then i else 0);
    }
  }

  lemma RunPackable(run: seq<SsJob>)
    ensures Packable(L.Reversed(run)) <==> CountsMatch(run) && HasBond(run)
  {
    hide L.Reversed, JobIntrCount;
    var js := L.Reversed(run);
    if run == [] {
      NothingReversed();
    } else {
      ReversedAt(run, 0);
    }
    forall i | 0 <= i < |run| ensures js[i] == run[|run| - 1 - i] {
      ReversedAt(run, i);
    }
    SameBonds(run, js);
    if CountsMatch(js) {
      BondIsCounted(js);
    }
  }

  lemma NothingReversed()
    ensures L.Reversed<SsJob>([]) == []
  {
  }

  lemma SameBonds(js: seq<SsJob>, js': seq<SsJob>)
    requires |js| == |js'| && forall i :: 0 <= i < |js| ==> js'[i] == js[|js| - 1 - i]
    ensures (CountsMatch(js) <==> CountsMatch(js')) && (HasBond(js) <==> HasBond(js'))
  {
    forall i | 0 <= i < |js| ensures js[i] == js'[|js| - 1 - i] {
      assert js'[|js| - 1 - i] == js[|js| - 1 - (|js| - 1 - i)];
    }
  }

  lemma {:induction false} AllCountsMatch(rs: seq<seq<SsJob>>)
    ensures CountsMatch(Concat(rs)) <==> forall k :: 0 <= k < |rs| ==> CountsMatch(rs[k])
    decreases |rs|
  {
    if rs != [] {
      AllCountsMatch(rs[1..]);
      CountsMatchAppend(rs[0], Concat(rs[1..]));
      assert forall k :: 0 < k < |rs| ==> rs[k] == rs[1..][k - 1];
    }
  }

  lemma CountsMatchAppend(a: seq<SsJob>, b: seq<SsJob>)
    ensures CountsMatch(a + b) <==> CountsMatch(a) && CountsMatch(b)
  {
    if CountsMatch(a + b) {
      assert forall k :: 0 <= k < |a| ==> a[k] == (a + b)[k];
      assert forall k :: 0 <= k < |b| ==> b[k] == (a + b)[|a| + k];
    }
  }

  /** What packing needs, told from the job list: right counters, and a bond in every task. */
  lemma PackableIff(jobs: seq<SsJob>)
    ensures AllPackable(Runs(jobs)) <==> CountsMatch(jobs) && EachTaskBonded(jobs)
  {
    hide Runs, Packable, HasBond, CountsMatch, Concat, L.Reversed;
    RunsSplit(jobs);
    AllCountsMatch(Runs(jobs));
    forall k | 0 <= k < |Runs(jobs)|
      ensures Packable(L.Reversed(Runs(jobs)[k])) <==> CountsMatch(Runs(jobs)[k]) && HasBond(Runs(jobs)[k])
    {
      RunPackable(Runs(jobs)[k]);
    }
  }

  /** The jobs of whatever file the reader accepts can be packed. */
  lemma AcceptedFileIsPacked(tableType: P.TaskType, file: seq<Byte>, jobs: seq<SsJob>)
    requires var r := P.ParseFrom(tableType, file, 0, 0, P.Data([], [], []));
      r.Parsed? && |jobs| == |r.data.jobs| && forall k :: 0 <= k < |jobs| ==> jobs[k].job == r.data.jobs[k]
    ensures CountsMatch(jobs) && EachTaskBonded(jobs)
  {
    hide Runs, Concat, P.ParseFrom;
    P.ParsedCounted(tableType, file, 0, 0, P.Data([], [], []));
    RunsSplit(jobs);
    forall k | 0 <= k < |Runs(jobs)| ensures HasBond(Runs(jobs)[k]) {
      InConcat(Runs(jobs), k);
    }
  }

  lemma {:induction false} InConcat(rs: seq<seq<SsJob>>, k: nat)
    requires k < |rs| && rs[k] != []
    ensures rs[k][0] in Concat(rs)
    decreases |rs|
  {
    if k > 0 {
      InConcat(rs[1..], k - 1);
    }
  }

  /** Take the leading run of jobs off the list; the run comes out in reverse order. */
  method PluckOutJobs(jobs: seq<SsJob>) returns (run: seq<SsJob>, rest: seq<SsJob>, count: nat)
    requires jobs != []
    ensures var r := RunLength(jobs, jobs[0].job.majorId);
      run == L.Reversed(jobs[..r]) && rest == jobs[r..] && count == r > 0
  {
    var majorId := jobs[0].job.majorId;
    run, rest, count := [], jobs, 0;
    ghost var r := RunLength(jobs, majorId);
    while rest != [] && rest[0].job.majorId == majorId
      invariant count <= r && rest == jobs[count..] && run == L.Reversed(jobs[..count])
      invariant count < r || (rest == [] || rest[0].job.majorId != majorId)
      decreases |rest|
    {
      assert jobs[..count + 1] == jobs[..count] + [rest[0]];
      ReversedSnoc(jobs[..count], rest[0]);
      run := [rest[0]] + run;
      rest := rest[1..];
      count := count + 1;
    }
  }

  lemma ReversedSnoc<X>(xs: seq<X>, x: X)
    ensures L.Reversed(xs + [x]) == [x] + L.Reversed(xs)
  {
  }

  method CountIntrs(jobs: seq<SsJob>) returns (i: nat)
    ensures i == JobIntrCount(jobs)
  {
    i := 0;
    for k := 0 to |jobs|
      invariant i == JobIntrCount(jobs[..k])
    {
      assert jobs[..k + 1][..k] == jobs[..k];
      JobIntrCountSnoc(jobs[..k + 1]);
      i := i + jobs[k].job.intrCount;
    }
    assert jobs[..|jobs|] == jobs;
  }

  /** Pack one group; the platform gives the task its pid. */
  method PackTask(run: seq<SsJob>, pid: Word) returns (ok: bool, p: Packet)
    requires run != []
    ensures ok <==> Packable(run)
    ensures ok ==> Packed(p, run) && p.pid == pid
  {
    hide Image, JobIntrCount;
    var intrCount := CountIntrs(run);
    var task := new Task(|run|, intrCount);
    assert TaskLength(|run|, intrCount) == WORD * (9 * |run| + 3 * intrCount);
    var ret := task.CreateTask(run, intrCount);
    ok := ret == 0;
    p := Packet(pid, task.bin, task.ssTskLen, task.ssTsk[..]);
  }

  /** tasks are the packets of the groups, in reverse order; the k-th group got the k-th pid. */
  ghost predicate AllPacked(tasks: seq<Packet>, groups: seq<seq<SsJob>>, pidOf: nat -> Word) {
    |tasks| == |groups| && forall k :: 0 <= k < |groups| ==>
      && Packed(tasks[|tasks| - 1 - k], L.Reversed(groups[k]))
      && tasks[|tasks| - 1 - k].pid == pidOf(k)
  }

  lemma PackedMore(tasks: seq<Packet>, groups: seq<seq<SsJob>>, pidOf: nat -> Word, p: Packet, g: seq<SsJob>)
    requires AllPacked(tasks, groups, pidOf) && Packed(p, L.Reversed(g)) && p.pid == pidOf(|groups|)
    ensures AllPacked([p] + tasks, groups + [g], pidOf)
  {
    hide Packed;
    var tasks', groups' := [p] + tasks, groups + [g];
    forall k | 0 <= k < |groups'|
      ensures Packed(tasks'[|tasks'| - 1 - k], L.Reversed(groups'[k]))
      ensures tasks'[|tasks'| - 1 - k].pid == pidOf(k)
    {
      if k < |groups| {
        assert tasks'[|tasks'| - 1 - k] == tasks[|tasks| - 1 - k];
      }
    }
  }

  lemma RunsStep(js: seq<SsJob>)
    requires js != []
    ensures var r := RunLength(js, js[0].job.majorId);
      r > 0 && Runs(js) == [js[..r]] + Runs(js[r..]) && MajorOf(js[..r]) == js[0].job.majorId
  {
  }

  /** Convert the job list to tasks, newest first, one per run of equal major id. The platform gives
      each task a pid of its own: pidOf(k) is the one of its k-th call. */
  method JobToTask(jobs: seq<SsJob>, pidOf: nat -> Word) returns (ok: bool, tasks: seq<Packet>)
    ensures ok <==> CountsMatch(jobs) && EachTaskBonded(jobs)
    ensures ok ==> AllPacked(tasks, Runs(jobs), pidOf)
  {
    hide Packed, Packable, AllPacked, Runs, RunLength, CountsMatch, EachTaskBonded;
    PackableIff(jobs);
    tasks := [];
    var rest := jobs;
    ghost var done: seq<seq<SsJob>> := [];
    NonePacked(pidOf);
    while rest != []
      invariant done + Runs(rest) == Runs(jobs) && |rest| <= |jobs|
      invariant AllPackable(done) && AllPacked(tasks, done, pidOf) && |tasks| == |done|
      decreases |rest|
    {
      RunsStep(rest);
      var run, after, count := PluckOutJobs(rest);
      ghost var group := rest[..count];
      var packed, p := PackTask(run, pidOf(|tasks|));
      if !packed {
        assert Runs(jobs)[|done|] == group;
        return false, [];
      }
      PackedMore(tasks, done, pidOf, p, group);
      assert done + ([group] + Runs(after)) == done + [group] + Runs(after);
      done := done + [group];
      tasks := [p] + tasks;
      rest := after;
    }
    NoRuns();
    assert done == Runs(jobs);
    return true, tasks;
  }

  lemma NonePacked(pidOf: nat -> Word)
    ensures AllPacked([], [], pidOf)
  {
  }

  lemma NoRuns()
    ensures Runs([]) == []
  {
  }
}
