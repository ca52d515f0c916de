// Listing, for each interval, the jobs bonded to it, read back out of the packed tasks.

module IntervalBonding {
  import opened TableFormat
  import opened TaskPacket
  import opened Bonding
  import L = LocalList

  /** One job listed under an interval; the target stores the three words as signed. */
  datatype Entry = Entry(majorId: Int32, minorId: Int32, pid: Int32)

  /** An interval as it is handed on, with the jobs that may run in it. */
  datatype IntrInj = IntrInj(intr: Intr, tsks: seq<Entry>)

  /** The ids of the intervals a job is bonded to. */
  function BondIds(bonds: seq<Bond>): set<Word> {
    set b | b in bonds :: Unsigned(b.intrId)
  }

  /** The jobs of one task bonded to an interval, in the order of the packet. */
  function Entries(pid: Word, majorId: Word, js: seq<SsJob>, id: Word): (es: seq<Entry>) {
    if js == [] then []
    else
      var j := js[|js| - 1];
      Entries(pid, majorId, js[..|js| - 1], id)
      + if id in BondIds(j.job.intr) then [Entry(Signed(majorId), Signed(j.job.jid), Signed(pid))] else []
  }

  /** The jobs of all tasks bonded to an interval. */
  function AllEntries(tasks: seq<Packet>, gs: seq<seq<SsJob>>, id: Word): (es: seq<Entry>)
    requires |tasks| == |gs|
  {
    if tasks == [] then []
    else
      var n := |tasks| - 1;
      AllEntries(tasks[..n], gs[..n], id) + Entries(tasks[n].pid, MajorOf(gs[n]), gs[n], id)
  }

  /** Task k is the packet of group k. */
  ghost predicate PackedAs(tasks: seq<Packet>, gs: seq<seq<SsJob>>) {
    |tasks| == |gs| && forall k :: 0 <= k < |tasks| ==> Packed(tasks[k], gs[k])
  }

  // ---- reading the packets ------------------------------------------------------------------

  method IntrSrchJob(id: Word, words: seq<int>, at: nat, ghost j: SsJob) returns (found: bool)
    requires RecordAt(words, at, j) && j.job.intrCount == |j.job.intr|
    ensures found <==> id in BondIds(j.job.intr)
  {
    ghost var bonds := j.job.intr;
    var intrCnt := 0;
    while intrCnt < words[at + 5]
      invariant 0 <= intrCnt <= |bonds|
      invariant forall i :: 0 <= i < intrCnt ==> Unsigned(bonds[i].intrId) != id
    {
      assert BondAt(words, at + 6 + 3 * intrCnt, bonds[intrCnt]);
      if id == words[at + 6 + 3 * intrCnt] {
        assert bonds[intrCnt] in bonds;
        return true;
      }
      intrCnt := intrCnt + 1;
    }
    return false;
  }

  method IntrPoplPerTask(id: Word, p: Packet, ghost js: seq<SsJob>) returns (tsks: seq<Entry>)
    requires Packed(p, js)
    ensures tsks == Entries(p.pid, MajorOf(js), js, id)
  {
    hide Image, RecordAt, Used, TaskLength, BondIds, JobIntrCount;
    tsks := [];
    ReadBack(js, 0, |p.words|);
    var jCnt := 0;
    while jCnt < p.words[1]
      invariant 0 <= jCnt <= |js|
      invariant tsks == Entries(p.pid, MajorOf(js), js[..jCnt], id)
    {
      ReadBack(js, jCnt, |p.words|);
      var at := p.words[2 + jCnt] / WORD;
      RecordHead(p.words, at, js[jCnt]);
      var found := IntrSrchJob(id, p.words, at, js[jCnt]);
      if found {
        tsks := tsks + [Entry(Signed(p.words[0]), Signed(p.words[at]), Signed(p.pid))];
      }
      assert js[..jCnt + 1][..jCnt] == js[..jCnt];
      jCnt := jCnt + 1;
    }
    assert js[..jCnt] == js;
  }

  lemma RecordHead(mem: seq<int>, at: nat, j: SsJob)
    requires RecordAt(mem, at, j)
    ensures at < |mem| && mem[at] == j.job.jid
  {
  }

  method IntrPopulateTask(id: Word, tasks: seq<Packet>, ghost gs: seq<seq<SsJob>>) returns (tsks: seq<Entry>)
    requires PackedAs(tasks, gs)
    ensures tsks == AllEntries(tasks, gs, id)
  {
    hide Packed, Entries;
    tsks := [];
    for k := 0 to |tasks|
      invariant tsks == AllEntries(tasks[..k], gs[..k], id)
    {
      var more := IntrPoplPerTask(id, tasks[k], gs[k]);
      tsks := tsks + more;
      assert tasks[..k + 1][..k] == tasks[..k] && gs[..k + 1][..k] == gs[..k];
    }
    assert tasks[..|tasks|] == tasks && gs[..|gs|] == gs;
  }

  /** Interval i may be handed on: it announces as many jobs as are bonded to it, and it is not
      the second of two empty intervals in a row. */
  predicate Matches(tasks: seq<Packet>, gs: seq<seq<SsJob>>, intrs: seq<Intr>, i: nat)
    requires |tasks| == |gs| && i < |intrs|
  {
    && |AllEntries(tasks, gs, intrs[i].intrId)| == intrs[i].noOfTsk
    && !(i > 0 && intrs[i - 1].noOfTsk == 0 && intrs[i].noOfTsk == 0)
  }

  /** Bond the intervals with the tasks. What is handed on are the intervals before the first one
      that does not match, each with exactly the jobs bonded to it. */
  method IntrTaskBond(tasks: seq<Packet>, intrs: seq<Intr>, ghost gs: seq<seq<SsJob>>)
      returns (ret: int, injected: seq<IntrInj>)
    requires PackedAs(tasks, gs)
    ensures tasks == [] || intrs == [] ==> ret == -1 && injected == []
    ensures |injected| <= |intrs|
    ensures forall i :: 0 <= i < |injected| ==>
      Matches(tasks, gs, intrs, i) && injected[i] == IntrInj(intrs[i], AllEntries(tasks, gs, intrs[i].intrId))
    ensures tasks != [] && intrs != [] ==>
      if ret == 0 then |injected| == |intrs|
      else ret == -1 && |injected| < |intrs| && !Matches(tasks, gs, intrs, |injected|)
  {
    hide Packed, AllEntries;
    injected := [];
    if tasks == [] || intrs == [] {
      return -1, [];
    }
    var intSeqCnt := 0;
    var i := 0;
    while i < |intrs|
      invariant 0 <= i == |injected| <= |intrs|
      invariant intSeqCnt != 0 <==> i > 0 && intrs[i - 1].noOfTsk == 0
      invariant forall k :: 0 <= k < i ==>
        Matches(tasks, gs, intrs, k) && injected[k] == IntrInj(intrs[k], AllEntries(tasks, gs, intrs[k].intrId))
    {
      var intrE := intrs[i];
      if intrE.noOfTsk == 0 {
        if intSeqCnt != 0 {
          return -1, injected;
        }
        intSeqCnt := intSeqCnt + 1;
      } else {
        intSeqCnt := 0;
      }
      var tsks := IntrPopulateTask(intrE.intrId, tasks, gs);
      if |tsks| != intrE.noOfTsk {
        return -1, injected;
      }
      injected := injected + [IntrInj(intrE, tsks)];
      i := i + 1;
    }
    return 0, injected;
  }

  // ---- what the listing means ---------------------------------------------------------------

  /** A job is listed under an interval exactly when it is bonded to it. */
  lemma {:induction false} ListedIffBonded(pid: Word, majorId: Word, js: seq<SsJob>, id: Word, e: Entry)
    ensures e in Entries(pid, majorId, js, id) <==>
      e.majorId == Signed(majorId) && e.pid == Signed(pid)
      && exists k :: 0 <= k < |js| && id in BondIds(js[k].job.intr) && e.minorId == Signed(js[k].job.jid)
    decreases |js|
  {
    if js != [] {
      var n := |js| - 1;
      ListedIffBonded(pid, majorId, js[..n], id, e);
      assert forall k :: 0 <= k < n ==> js[..n][k] == js[k];
    }
  }

  /** How many of the given intervals a list of jobs is bonded to, job by job. */
  function Pairs(js: seq<SsJob>, ids: set<Word>): nat {
    if js == [] then 0 else Pairs(js[..|js| - 1], ids) + |BondIds(js[|js| - 1].job.intr) * ids|
  }

  function AllPairs(gs: seq<seq<SsJob>>, ids: set<Word>): nat {
    if gs == [] then 0 else AllPairs(gs[..|gs| - 1], ids) + Pairs(gs[|gs| - 1], ids)
  }

  /** One more interval adds the jobs listed under it. */
  lemma {:induction false} PairsAddOne(pid: Word, majorId: Word, js: seq<SsJob>, ids: set<Word>, id: Word)
    requires id !in ids
    ensures Pairs(js, ids + {id}) == Pairs(js, ids) + |Entries(pid, majorId, js, id)|
    decreases |js|
  {
    hide BondIds;
    if js != [] {
      var b := BondIds(js[|js| - 1].job.intr);
      PairsAddOne(pid, majorId, js[..|js| - 1], ids, id);
      if id in b {
        assert b * (ids + {id}) == b * ids + {id};
      } else {
        assert b * (ids + {id}) == b * ids;
      }
    }
  }

  lemma {:induction false} AllPairsAddOne(tasks: seq<Packet>, gs: seq<seq<SsJob>>, ids: set<Word>, id: Word)
    requires |tasks| == |gs| && id !in ids
    ensures AllPairs(gs, ids + {id}) == AllPairs(gs, ids) + |AllEntries(tasks, gs, id)|
    decreases |gs|
  {
    hide Pairs, Entries;
    if gs != [] {
      var n := |gs| - 1;
      AllPairsAddOne(tasks[..n], gs[..n], ids, id);
      PairsAddOne(tasks[n].pid, MajorOf(gs[n]), gs[n], ids, id);
    }
  }

  function IntrIds(intrs: seq<Intr>): set<Word> {
    set r | r in intrs :: r.intrId
  }

  ghost predicate DistinctIds(intrs: seq<Intr>) {
    forall i, k :: 0 <= i < k < |intrs| ==> intrs[i].intrId != intrs[k].intrId
  }

  function TotalTasks(intrs: seq<Intr>): nat {
    if intrs == [] then 0 else TotalTasks(intrs[..|intrs| - 1]) + intrs[|intrs| - 1].noOfTsk
  }

  lemma {:induction false} NoPairs(gs: seq<seq<SsJob>>)
    ensures AllPairs(gs, {}) == 0
    decreases |gs|
  {
    if gs != [] {
      NoPairs(gs[..|gs| - 1]);
      NoPairsInGroup(gs[|gs| - 1]);
    }
  }

  lemma {:induction false} NoPairsInGroup(js: seq<SsJob>)
    ensures Pairs(js, {}) == 0
    decreases |js|
  {
    if js != [] {
      NoPairsInGroup(js[..|js| - 1]);
      assert BondIds(js[|js| - 1].job.intr) * {} == {};
    }
  }

  /** Counting by interval or by job gives the same: when every interval lists as many jobs as it
      announces, the announced numbers add up to the (job, interval) bond pairs. */
  lemma {:induction false} BondPairsCounted(tasks: seq<Packet>, gs: seq<seq<SsJob>>, intrs: seq<Intr>)
    requires |tasks| == |gs| && DistinctIds(intrs)
    requires forall i :: 0 <= i < |intrs| ==> |AllEntries(tasks, gs, intrs[i].intrId)| == intrs[i].noOfTsk
    ensures TotalTasks(intrs) == AllPairs(gs, IntrIds(intrs))
    decreases |intrs|
  {
    hide AllEntries, AllPairs;
    if intrs == [] {
      assert IntrIds(intrs) == {};
      NoPairs(gs);
    } else {
      var n := |intrs| - 1;
      var r := intrs[n];
      BondPairsCounted(tasks, gs, intrs[..n]);
      assert intrs == intrs[..n] + [r];
      assert IntrIds(intrs) == IntrIds(intrs[..n]) + {r.intrId};
      AllPairsAddOne(tasks, gs, IntrIds(intrs[..n]), r.intrId);
    }
  }

  // ---- from the parsed jobs -------------------------------------------------------------------

  lemma {:induction false} PairsConcat(a: seq<SsJob>, b: seq<SsJob>, ids: set<Word>)
    ensures Pairs(a + b, ids) == Pairs(a, ids) + Pairs(b, ids)
    decreases |b|
  {
    if b == [] {
      assert a + b == a;
    } else {
      PairsConcat(a, b[..|b| - 1], ids);
      assert (a + b)[..|a + b| - 1] == a + b[..|b| - 1];
    }
  }

  lemma {:induction false} PairsReversed(js: seq<SsJob>, ids: set<Word>)
    ensures Pairs(L.Reversed(js), ids) == Pairs(js, ids)
    decreases |js|
  {
    if js != [] {
      var n := |js| - 1;
      PairsReversed(js[..n], ids);
      ReversedSnoc(js[..n], js[n]);
      assert js[..n] + [js[n]] == js;
      PairsConcat([js[n]], L.Reversed(js[..n]), ids);
      assert [js[n]][..0] == [];
    }
  }

  /** The groups behind the tasks: the runs of the job list, last run first, each reversed. */
  ghost predicate GroupsOf(gs: seq<seq<SsJob>>, rs: seq<seq<SsJob>>) {
    |gs| == |rs| && forall k :: 0 <= k < |rs| ==> gs[|rs| - 1 - k] == L.Reversed(rs[k])
  }

  lemma {:induction false} PairsOfRuns(gs: seq<seq<SsJob>>, rs: seq<seq<SsJob>>, ids: set<Word>)
    requires GroupsOf(gs, rs)
    ensures AllPairs(gs, ids) == Pairs(Concat(rs), ids)
    decreases |rs|
  {
    if rs != [] {
      var n := |gs| - 1;
      forall k | 0 <= k < |rs[1..]| ensures gs[..n][|rs[1..]| - 1 - k] == L.Reversed(rs[1..][k]) {
        assert gs[|rs| - 1 - (k + 1)] == L.Reversed(rs[k + 1]);
      }
      PairsOfRuns(gs[..n], rs[1..], ids);
      PairsReversed(rs[0], ids);
      PairsConcat(rs[0], Concat(rs[1..]), ids);
    }
  }

  /** The groups, as the bonding needs them, of tasks made from a job list. */
  lemma TasksArePacked(tasks: seq<Packet>, jobs: seq<SsJob>, pidOf: nat -> Word) returns (gs: seq<seq<SsJob>>)
    requires AllPacked(tasks, Runs(jobs), pidOf)
    ensures PackedAs(tasks, gs) && GroupsOf(gs, Runs(jobs))
  {
    hide Packed, Runs, AllPacked, L.Reversed;
    var rs := Runs(jobs);
    gs := seq(|rs|, k requires 0 <= k < |rs| => L.Reversed(rs[|rs| - 1 - k]));
    AsManyTasks(tasks, rs, pidOf);
    forall k | 0 <= k < |tasks| ensures Packed(tasks[k], gs[k]) {
      TaskIsPacked(tasks, rs, pidOf, k);
    }
  }

  lemma AsManyTasks(tasks: seq<Packet>, rs: seq<seq<SsJob>>, pidOf: nat -> Word)
    requires AllPacked(tasks, rs, pidOf)
    ensures |tasks| == |rs|
  {
  }

  lemma TaskIsPacked(tasks: seq<Packet>, rs: seq<seq<SsJob>>, pidOf: nat -> Word, k: nat)
    requires AllPacked(tasks, rs, pidOf) && k < |tasks| == |rs|
    ensures Packed(tasks[k], L.Reversed(rs[|rs| - 1 - k]))
  {
    hide Packed, L.Reversed;
    var i := |rs| - 1 - k;
    assert Packed(tasks[|tasks| - 1 - i], L.Reversed(rs[i]));
  }

  // ---- which parsed jobs are listed -----------------------------------------------------------

  /** The entry of parsed job k: its ids, and the pid of the task that its run became. */
  function EntryOf(jobs: seq<SsJob>, k: nat, pidOf: nat -> Word): Entry
    requires k < |jobs|
  {
    Entry(Signed(jobs[k].job.majorId), Signed(jobs[k].job.jid), Signed(pidOf(RunIndex(jobs, k))))
  }

  /** The entries of those of the first n parsed jobs that are bonded to an interval, last job first. */
  function Listing(jobs: seq<SsJob>, n: nat, pidOf: nat -> Word, id: Word): seq<Entry>
    requires n <= |jobs|
  {
    if n == 0 then []
    else
      (if id in BondIds(jobs[n - 1].job.intr) then [EntryOf(jobs, n - 1, pidOf)] else [])
      + Listing(jobs, n - 1, pidOf, id)
  }

  /** e is the entry of some parsed job that is bonded to interval id. */
  ghost predicate IsBondedEntry(jobs: seq<SsJob>, pidOf: nat -> Word, id: Word, e: Entry) {
    exists k :: 0 <= k < |jobs| && id in BondIds(jobs[k].job.intr) && e == EntryOf(jobs, k, pidOf)
  }

  lemma LastEntry(pid: Word, majorId: Word, js: seq<SsJob>, j: SsJob, id: Word)
    ensures Entries(pid, majorId, js + [j], id) == Entries(pid, majorId, js, id)
      + if id in BondIds(j.job.intr) then [Entry(Signed(majorId), Signed(j.job.jid), Signed(pid))] else []
  {
    assert (js + [j])[..|js|] == js;
  }

  lemma {:induction false} EntriesConcat(pid: Word, majorId: Word, a: seq<SsJob>, b: seq<SsJob>, id: Word)
    ensures Entries(pid, majorId, a + b, id) == Entries(pid, majorId, a, id) + Entries(pid, majorId, b, id)
    decreases |b|
  {
    if b == [] {
      assert a + b == a;
    } else {
      hide Entries, BondIds, Signed;
      var n := |b| - 1;
      EntriesConcat(pid, majorId, a, b[..n], id);
      assert b == b[..n] + [b[n]] && a + b == a + b[..n] + [b[n]];
      LastEntry(pid, majorId, b[..n], b[n], id);
      LastEntry(pid, majorId, a + b[..n], b[n], id);
    }
  }

  lemma OneEntry(pid: Word, j: SsJob, id: Word)
    ensures Entries(pid, j.job.majorId, [j], id)
         == if id in BondIds(j.job.intr) then [Entry(Signed(j.job.majorId), Signed(j.job.jid), Signed(pid))] else []
  {
    assert [j][..0] == [];
  }

  lemma FirstRunEntry(jobs: seq<SsJob>, k: nat, pidOf: nat -> Word)
    requires jobs != [] && k < RunLength(jobs, jobs[0].job.majorId)
    ensures jobs[k].job.majorId == jobs[0].job.majorId
    ensures EntryOf(jobs, k, pidOf)
         == Entry(Signed(jobs[k].job.majorId), Signed(jobs[k].job.jid), Signed(pidOf(0)))
  {
  }

  lemma NextListed(jobs: seq<SsJob>, n: nat, pidOf: nat -> Word, id: Word)
    requires n < |jobs|
    ensures Listing(jobs, n + 1, pidOf, id)
         == (if id in BondIds(jobs[n].job.intr) then [EntryOf(jobs, n, pidOf)] else []) + Listing(jobs, n, pidOf, id)
  {
    hide BondIds, EntryOf;
  }

  lemma ReversedNext(js: seq<SsJob>, n: nat)
    requires n < |js|
    ensures L.Reversed(js[..n + 1]) == [js[n]] + L.Reversed(js[..n])
  {
    hide L.Reversed;
    assert js[..n + 1] == js[..n] + [js[n]];
    ReversedSnoc(js[..n], js[n]);
  }

  lemma NothingListed(jobs: seq<SsJob>, pid: Word, majorId: Word, pidOf: nat -> Word, id: Word)
    ensures Entries(pid, majorId, L.Reversed(jobs[..0]), id) == Listing(jobs, 0, pidOf, id) == []
  {
    assert jobs[..0] == [];
  }

  /** The first run is taken backwards, so its jobs are listed last job first. */
  lemma {:induction false} FirstRunListed(jobs: seq<SsJob>, n: nat, pidOf: nat -> Word, id: Word)
    requires jobs != [] && n <= RunLength(jobs, jobs[0].job.majorId)
    ensures Entries(pidOf(0), jobs[0].job.majorId, L.Reversed(jobs[..n]), id) == Listing(jobs, n, pidOf, id)
    decreases n
  {
    hide *;
    var pid, majorId := pidOf(0), jobs[0].job.majorId;
    if n == 0 {
      NothingListed(jobs, pid, majorId, pidOf, id);
    } else {
      FirstRunListed(jobs, n - 1, pidOf, id);
      NextListed(jobs, n - 1, pidOf, id);
      ReversedNext(jobs, n - 1);
      EntriesConcat(pid, majorId, [jobs[n - 1]], L.Reversed(jobs[..n - 1]), id);
      FirstRunEntry(jobs, n - 1, pidOf);
      OneEntry(pid, jobs[n - 1], id);
    }
  }

  /** The pids of the tasks behind the first one. */
  function Later(pidOf: nat -> Word): nat -> Word {
    k => pidOf(k + 1)
  }

  lemma LaterEntry(jobs: seq<SsJob>, r: nat, k: nat, pidOf: nat -> Word)
    requires jobs != [] && r == RunLength(jobs, jobs[0].job.majorId) && r + k < |jobs|
    ensures EntryOf(jobs, r + k, pidOf) == EntryOf(jobs[r..], k, Later(pidOf))
  {
    hide RunIndex, RunLength, Signed;
    RunIndexNext(jobs, r, k);
    assert jobs[r..][k] == jobs[r + k];
  }

  /** The other runs are the runs of the rest, with one pid given out already. */
  lemma {:induction false} RestListed(jobs: seq<SsJob>, r: nat, n: nat, pidOf: nat -> Word, id: Word)
    requires jobs != [] && r == RunLength(jobs, jobs[0].job.majorId) && r + n <= |jobs|
    ensures Listing(jobs, r + n, pidOf, id) == Listing(jobs[r..], n, Later(pidOf), id) + Listing(jobs, r, pidOf, id)
    decreases n
  {
    hide BondIds, RunLength, EntryOf, Later;
    if n > 0 {
      hide Listing;
      RestListed(jobs, r, n - 1, pidOf, id);
      NextListed(jobs, r + n - 1, pidOf, id);
      NextListed(jobs[r..], n - 1, Later(pidOf), id);
      assert jobs[r..][n - 1] == jobs[r + n - 1];
      LaterEntry(jobs, r, n - 1, pidOf);
    }
  }

  /** The k-th task from the end got the k-th pid. */
  ghost predicate Pids(tasks: seq<Packet>, pidOf: nat -> Word) {
    forall k :: 0 <= k < |tasks| ==> tasks[|tasks| - 1 - k].pid == pidOf(k)
  }

  /** One list comes out of the packets and of the parsed jobs: the groups are the runs backwards, and
      each of them is a run backwards, so it is the job list backwards. */
  lemma {:induction false} ListedInOrder(tasks: seq<Packet>, gs: seq<seq<SsJob>>, jobs: seq<SsJob>,
                                         pidOf: nat -> Word, id: Word)
    requires Pids(tasks, pidOf) && GroupsOf(gs, Runs(jobs)) && |tasks| == |gs|
    ensures AllEntries(tasks, gs, id) == Listing(jobs, |jobs|, pidOf, id)
    decreases |jobs|
  {
    if jobs == [] {
      assert gs == [];
    } else {
      hide *;
      var r := RunLength(jobs, jobs[0].job.majorId);
      var n := |gs| - 1;
      RunsStep(jobs);
      LaterGroups(gs, jobs, r);
      LaterPids(tasks, pidOf);
      LastTask(tasks, gs, id);
      ListedInOrder(tasks[..n], gs[..n], jobs[r..], Later(pidOf), id);
      MajorOfReversed(jobs, r);
      FirstRunListed(jobs, r, pidOf, id);
      RestListed(jobs, r, |jobs| - r, pidOf, id);
    }
  }

  lemma LastTask(tasks: seq<Packet>, gs: seq<seq<SsJob>>, id: Word)
    requires |tasks| == |gs| > 0
    ensures var n := |gs| - 1;
      AllEntries(tasks, gs, id)
        == AllEntries(tasks[..n], gs[..n], id) + Entries(tasks[n].pid, MajorOf(gs[n]), gs[n], id)
  {
  }

  lemma LaterGroups(gs: seq<seq<SsJob>>, jobs: seq<SsJob>, r: nat)
    requires GroupsOf(gs, Runs(jobs)) && jobs != [] && r == RunLength(jobs, jobs[0].job.majorId)
    ensures |gs| > 0 && gs[|gs| - 1] == L.Reversed(jobs[..r]) && GroupsOf(gs[..|gs| - 1], Runs(jobs[r..]))
  {
    hide Runs, RunLength, L.Reversed;
    var n, rs, rest := |gs| - 1, Runs(jobs), Runs(jobs[r..]);
    RunsStep(jobs);
    assert gs[|rs| - 1 - 0] == L.Reversed(rs[0]);
    forall k | 0 <= k < n ensures gs[..n][n - 1 - k] == L.Reversed(rest[k]) {
      assert gs[|rs| - 1 - (k + 1)] == L.Reversed(rs[k + 1]);
    }
  }

  lemma LaterPids(tasks: seq<Packet>, pidOf: nat -> Word)
    requires Pids(tasks, pidOf) && tasks != []
    ensures tasks[|tasks| - 1].pid == pidOf(0) && Pids(tasks[..|tasks| - 1], Later(pidOf))
  {
    var n, later := |tasks| - 1, Later(pidOf);
    assert tasks[|tasks| - 1 - 0].pid == pidOf(0);
    forall k | 0 <= k < n ensures tasks[..n][n - 1 - k].pid == later(k) {
      assert tasks[|tasks| - 1 - (k + 1)].pid == pidOf(k + 1);
    }
  }

  lemma MajorOfReversed(jobs: seq<SsJob>, r: nat)
    requires jobs != [] && 0 < r <= RunLength(jobs, jobs[0].job.majorId)
    ensures MajorOf(L.Reversed(jobs[..r])) == jobs[0].job.majorId
  {
    ReversedAt(jobs[..r], 0);
  }

  lemma {:induction false} ListingIffBonded(jobs: seq<SsJob>, n: nat, pidOf: nat -> Word, id: Word, e: Entry)
    requires n <= |jobs|
    ensures e in Listing(jobs, n, pidOf, id) <==>
      exists k :: 0 <= k < n && id in BondIds(jobs[k].job.intr) && e == EntryOf(jobs, k, pidOf)
    decreases n
  {
    hide BondIds, EntryOf;
    if n > 0 {
      ListingIffBonded(jobs, n - 1, pidOf, id, e);
    }
  }

  /** For the tasks of a job list, an interval lists exactly the entries of the parsed jobs bonded to it. */
  lemma ListsExactlyBonded(tasks: seq<Packet>, gs: seq<seq<SsJob>>, jobs: seq<SsJob>, pidOf: nat -> Word,
                           id: Word, e: Entry)
    requires AllPacked(tasks, Runs(jobs), pidOf) && GroupsOf(gs, Runs(jobs)) && |tasks| == |gs|
    ensures e in AllEntries(tasks, gs, id) <==> IsBondedEntry(jobs, pidOf, id, e)
  {
    hide Packed, AllEntries, Listing, GroupsOf, Runs, BondIds, EntryOf;
    ListedInOrder(tasks, gs, jobs, pidOf, id);
    ListingIffBonded(jobs, |jobs|, pidOf, id, e);
  }

  lemma {:induction false} ListingLength(jobs: seq<SsJob>, n: nat, pidOf: nat -> Word, id: Word)
    requires n <= |jobs|
    ensures |Listing(jobs, n, pidOf, id)| == Pairs(jobs[..n], {id})
    decreases n
  {
    hide BondIds, EntryOf;
    if n == 0 {
      assert jobs[..0] == [];
    } else {
      ListingLength(jobs, n - 1, pidOf, id);
      assert jobs[..n][..n - 1] == jobs[..n - 1];
      var b := BondIds(jobs[n - 1].job.intr);
      assert b * {id} == if id in b then {id} else {};
    }
  }

  // ---- the conversion as a whole --------------------------------------------------------------

  /** Interval i announces as many jobs as are bonded to it, and does not follow an empty one when it
      is empty itself. */
  predicate Announced(jobs: seq<SsJob>, intrs: seq<Intr>, i: nat)
    requires i < |intrs|
  {
    && intrs[i].noOfTsk == Pairs(jobs, {intrs[i].intrId})
    && (i > 0 ==> intrs[i - 1].noOfTsk > 0 || intrs[i].noOfTsk > 0)
  }

  lemma AnnouncedMatches(tasks: seq<Packet>, gs: seq<seq<SsJob>>, jobs: seq<SsJob>, pidOf: nat -> Word,
                         intrs: seq<Intr>, i: nat)
    requires Pids(tasks, pidOf) && GroupsOf(gs, Runs(jobs)) && |tasks| == |gs| && i < |intrs|
    ensures AllEntries(tasks, gs, intrs[i].intrId) == Listing(jobs, |jobs|, pidOf, intrs[i].intrId)
    ensures Matches(tasks, gs, intrs, i) <==> Announced(jobs, intrs, i)
  {
    hide Pairs, AllEntries, Listing, GroupsOf, Runs, Pids;
    ListedInOrder(tasks, gs, jobs, pidOf, intrs[i].intrId);
    ListingLength(jobs, |jobs|, pidOf, intrs[i].intrId);
    assert jobs[..|jobs|] == jobs;
  }

  /** The conversion as a whole: jobs to tasks, then, for a periodic table, tasks to intervals. It
      succeeds exactly when every job has the bonds it announces, every task has one, and, for a periodic
      table, there are jobs and intervals and every interval is announced rightly. Each interval handed on
      lists exactly the entries of the parsed jobs bonded to it, last job first; the intervals handed on
      are those before the first that is not announced rightly. */
  method BondTable(periodic: bool, jobs: seq<SsJob>, intrs: seq<Intr>, pidOf: nat -> Word)
      returns (ret: int, tasks: seq<Packet>, injected: seq<IntrInj>, ghost gs: seq<seq<SsJob>>)
    ensures ret == 0 || ret == -1
    ensures ret == 0 <==>
      && CountsMatch(jobs) && EachTaskBonded(jobs)
      && (periodic ==> jobs != [] && intrs != [] && forall i :: 0 <= i < |intrs| ==> Announced(jobs, intrs, i))
    ensures CountsMatch(jobs) && EachTaskBonded(jobs) ==>
      AllPacked(tasks, Runs(jobs), pidOf) && GroupsOf(gs, Runs(jobs)) && |tasks| == |gs|
    ensures |injected| <= |intrs|
    ensures forall i :: 0 <= i < |injected| ==>
      && injected[i] == IntrInj(intrs[i], Listing(jobs, |jobs|, pidOf, intrs[i].intrId))
      && |injected[i].tsks| == intrs[i].noOfTsk && Announced(jobs, intrs, i)
    ensures periodic && CountsMatch(jobs) && EachTaskBonded(jobs) && jobs != [] && |injected| < |intrs| ==>
      !Announced(jobs, intrs, |injected|)
    ensures periodic && ret == 0 && DistinctIds(intrs) ==> TotalTasks(intrs) == Pairs(jobs, IntrIds(intrs))
  {
    hide AllPacked, PackedAs, Pairs, AllPairs, TotalTasks, AllEntries, Runs, GroupsOf, IntrIds, Listing, Announced,
      Matches, CountsMatch, EachTaskBonded;
    injected, gs := [], [];
    var ok;
    ok, tasks := JobToTask(jobs, pidOf);
    if !ok {
      return -1, tasks, [], [];
    }
    gs := TasksArePacked(tasks, jobs, pidOf);
    SameCount(tasks, gs);
    if !periodic {
      return 0, tasks, [], gs;
    }
    AsManyAsRuns(tasks, gs, jobs, pidOf);
    ret, injected := IntrTaskBond(tasks, intrs, gs);
    forall i | 0 <= i < |intrs|
      ensures AllEntries(tasks, gs, intrs[i].intrId) == Listing(jobs, |jobs|, pidOf, intrs[i].intrId)
      ensures Matches(tasks, gs, intrs, i) <==> Announced(jobs, intrs, i)
    {
      AnnouncedMatches(tasks, gs, jobs, pidOf, intrs, i);
    }
    forall i | 0 <= i < |injected| ensures |injected[i].tsks| == intrs[i].noOfTsk {
      MatchesCounts(tasks, gs, intrs, i);
    }
    if ret == 0 && DistinctIds(intrs) {
      BondPairsCounted(tasks, gs, intrs);
      PairsOfRuns(gs, Runs(jobs), IntrIds(intrs));
      RunsSplit(jobs);
    }
  }

  lemma MatchesCounts(tasks: seq<Packet>, gs: seq<seq<SsJob>>, intrs: seq<Intr>, i: nat)
    requires |tasks| == |gs| && i < |intrs| && Matches(tasks, gs, intrs, i)
    ensures |AllEntries(tasks, gs, intrs[i].intrId)| == intrs[i].noOfTsk
  {
  }

  lemma AsManyAsRuns(tasks: seq<Packet>, gs: seq<seq<SsJob>>, jobs: seq<SsJob>, pidOf: nat -> Word)
    requires AllPacked(tasks, Runs(jobs), pidOf) && GroupsOf(gs, Runs(jobs))
    ensures Pids(tasks, pidOf) && (tasks == [] <==> jobs == [])
  {
    hide Packed, Runs;
    NoRuns();
    if jobs != [] {
      RunsStep(jobs);
    }
  }

  lemma SameCount(tasks: seq<Packet>, gs: seq<seq<SsJob>>)
    requires PackedAs(tasks, gs)
    ensures |tasks| == |gs|
  {
  }
}
