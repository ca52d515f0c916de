// Packing the jobs of one task into a single buffer: a head, an array of offsets, and one record
// of varying length per job.

module TaskPacket {
  import opened TableFormat

  // Sizes in bytes; every field is one 4-byte word.
  const WORD := 4
  const SIZEOF_JOB_BOND := 12
  const SIZEOF_MINOR_ID_BOND := 36
  const SIZEOF_SS_TASK := 12

  /** A parsed job together with the start time that its structure has room for. */
  datatype SsJob = SsJob(job: Job, est: Word)

  predicate CountsMatch(js: seq<SsJob>) {
    forall k :: 0 <= k < |js| ==> js[k].job.intrCount == |js[k].job.intr|
  }

  function JobIntrCount(js: seq<SsJob>): nat {
    if js == [] then 0 else js[0].job.intrCount + JobIntrCount(js[1..])
  }

  /** Allocated length of a task with n jobs and m bonds. */
  function TaskLength(n: nat, m: nat): int {
    SIZEOF_SS_TASK + (SIZEOF_MINOR_ID_BOND + SIZEOF_MINOR_ID_BOND * (n - 1)) + SIZEOF_JOB_BOND * (m - 1)
  }

  /** Where the first record starts. */
  function SsTaskOffset(n: nat): int {
    SIZEOF_SS_TASK + WORD * (n - 1)
  }

  // ---- what the buffer holds ------------------------------------------------------------------

  function BondWords(bonds: seq<Bond>): (w: seq<Word>)
    ensures |w| == 3 * |bonds|
  {
    if bonds == [] then []
    else BondWords(bonds[..|bonds| - 1]) + [Unsigned(bonds[|bonds| - 1].intrId), bonds[|bonds| - 1].est, 0]
  }

  function HeadWords(j: SsJob): (w: seq<Word>)
    ensures |w| == 6
  {
    [j.job.jid, j.est, j.job.wcet, j.job.dl, j.job.coreid, j.job.intrCount]
  }

  /** The record of one job. */
  function RecordWords(j: SsJob): (w: seq<Word>)
    ensures |w| == 6 + 3 * |j.job.intr|
  {
    HeadWords(j) + BondWords(j.job.intr)
  }

  /** The records of the jobs, one behind the other. */
  function Records(js: seq<SsJob>): seq<Word> {
    if js == [] then [] else Records(js[..|js| - 1]) + RecordWords(js[|js| - 1])
  }

  /** Byte offset of record k, counted from the start of the buffer of a task with n jobs. */
  function Offset(js: seq<SsJob>, n: nat, k: nat): (o: nat)
    requires k <= |js| && n > 0
    ensures o == SsTaskOffset(n) + WORD * |Records(js[..k])|
    decreases k
  {
    if k == 0 then SsTaskOffset(n)
    else
      assert js[..k][..k - 1] == js[..k - 1];
      Offset(js, n, k - 1) + WORD * |RecordWords(js[k - 1])|
  }

  /** The records are disjoint: each ends where the next one starts. */
  lemma RecordsAdjoin(js: seq<SsJob>, n: nat, k: nat)
    requires k < |js| && n > 0
    ensures Offset(js, n, k) + SIZEOF_MINOR_ID_BOND + SIZEOF_JOB_BOND * (|js[k].job.intr| - 1) == Offset(js, n, k + 1)
  {
  }

  lemma {:induction false} RecordsLength(js: seq<SsJob>)
    requires CountsMatch(js)
    ensures |Records(js)| == 6 * |js| + 3 * JobIntrCount(js)
    decreases |js|
  {
    if js != [] {
      RecordsLength(js[..|js| - 1]);
      JobIntrCountSnoc(js);
    }
  }

  lemma {:induction false} JobIntrCountSnoc(js: seq<SsJob>)
    requires js != []
    ensures JobIntrCount(js) == JobIntrCount(js[..|js| - 1]) + js[|js| - 1].job.intrCount
    decreases |js|
  {
    if |js| > 1 {
      JobIntrCountSnoc(js[1..]);
      assert js[1..][..|js| - 2] == js[..|js| - 1][1..];
    }
  }

  /** The records fit: what stays unused is one offset word less than a bond per further job. */
  lemma SlackIsExact(js: seq<SsJob>)
    requires js != [] && CountsMatch(js)
    ensures TaskLength(|js|, JobIntrCount(js)) - Offset(js, |js|, |js|) == (|js| - 1) * (SIZEOF_JOB_BOND - WORD)
    ensures Offset(js, |js|, |js|) <= TaskLength(|js|, JobIntrCount(js))
  {
    assert js[..|js|] == js;
    RecordsLength(js);
  }

  function Offsets(js: seq<SsJob>, n: nat, k: nat): (w: seq<int>)
    requires k <= |js| && n > 0
    ensures |w| == k && forall i :: 0 <= i < k ==> w[i] == Offset(js, n, i)
  {
    seq(k, i requires 0 <= i < k => Offset(js, n, i))
  }

  // ---- building -------------------------------------------------------------------------------

  class Task {
    var pid: Word
    var bin: seq<Byte>
    var ssTskLen: nat
    const ssTsk: array<int>   // the buffer, word by word

    /** A zeroed buffer for n jobs with m bonds. */
    constructor (n: nat, m: nat)
      requires n > 0
      ensures pid == 0 && ssTskLen == TaskLength(n, m) && fresh(ssTsk)
      ensures ssTsk[..] == seq(TaskLength(n, m) / WORD, _ => 0) && ssTsk.Length * WORD == ssTskLen
    {
      pid, bin, ssTskLen := 0, [], TaskLength(n, m);
      ssTsk := new int[TaskLength(n, m) / WORD](_ => 0);
      assert TaskLength(n, m) == WORD * (9 * n + 3 * m);
    }

    /** The head of the buffer; the result is the offset of the first record. */
    method CreateSsTask(first: SsJob, n: nat) returns (offset: int)
      requires n > 0 && ssTsk.Length >= 2
      modifies this`bin, this`pid, ssTsk
      ensures bin == first.job.binary && pid == 0 && offset == SsTaskOffset(n)
      ensures ssTsk[..] == [first.job.majorId, n] + old(ssTsk[..])[2..]
    {
      bin := first.job.binary;
      pid := 0;
      ssTsk[0] := first.job.majorId;
      ssTsk[1] := n;
      return SsTaskOffset(n);
    }

    method WriteHead(j: SsJob, at: nat)
      requires at + 6 <= ssTsk.Length
      modifies ssTsk
      ensures ssTsk[..] == Overwritten(old(ssTsk[..]), at, HeadWords(j))
    {
      ssTsk[at] := j.job.jid;
      ssTsk[at + 1] := j.est;
      ssTsk[at + 2] := j.job.wcet;
      ssTsk[at + 3] := j.job.dl;
      ssTsk[at + 4] := j.job.coreid;
      ssTsk[at + 5] := j.job.intrCount;
    }

    method WriteBond(b: Bond, at: nat)
      requires at + 3 <= ssTsk.Length
      modifies ssTsk
      ensures ssTsk[..] == Overwritten(old(ssTsk[..]), at, [Unsigned(b.intrId), b.est, 0])
    {
      ssTsk[at] := Unsigned(b.intrId);
      ssTsk[at + 1] := b.est;
      ssTsk[at + 2] := 0;
    }

    /** Write the record of a job at a word position; the result is the position behind it, or 0
        when the job has more or fewer bonds than it announces. A bond that no longer fits is past
        the end of the buffer, which counts as such a failure. */
    method CreateMinorIdBond(j: SsJob, at: nat) returns (next: nat)
      requires 0 < at && at + 6 <= ssTsk.Length
      modifies ssTsk
      ensures at + |RecordWords(j)| <= ssTsk.Length ==> ssTsk[..] == Overwritten(old(ssTsk[..]), at, RecordWords(j))
      ensures next == if |j.job.intr| == j.job.intrCount && at + |RecordWords(j)| <= ssTsk.Length
                      then at + |RecordWords(j)| else 0
    {
      hide Overwritten;
      ghost var was := ssTsk[..];
      var bonds := j.job.intr;
      WriteHead(j, at);
      assert bonds[..0] == [] && HeadWords(j) + BondWords([]) == HeadWords(j);
      var i := 0;
      while i < |bonds|
        invariant 0 <= i <= |bonds| && at + 6 + 3 * i <= ssTsk.Length
        invariant ssTsk[..] == Overwritten(was, at, HeadWords(j) + BondWords(bonds[..i]))
      {
        if at + 6 + 3 * i + 3 > ssTsk.Length {
          return 0;
        }
        var b := bonds[i];
        WriteBond(b, at + 6 + 3 * i);
        assert bonds[..i + 1][..i] == bonds[..i];
        OverwrittenTwice(was, at, HeadWords(j) + BondWords(bonds[..i]), [Unsigned(b.intrId), b.est, 0]);
        assert HeadWords(j) + BondWords(bonds[..i]) + [Unsigned(b.intrId), b.est, 0]
            == HeadWords(j) + BondWords(bonds[..i + 1]);
        i := i + 1;
      }
      assert bonds[..|bonds|] == bonds;
      if i != j.job.intrCount {
        return 0;
      }
      return at + 6 + 3 * i;
    }

    /** Fill the buffer: head, then for each job its offset and its record. */
    method CreateTask(tlist: seq<SsJob>, intrCount: nat) returns (ret: int)
      requires tlist != [] && intrCount == JobIntrCount(tlist)
      requires ssTsk[..] == seq(9 * |tlist| + 3 * intrCount, _ => 0)
      modifies this`bin, this`pid, ssTsk
      ensures ret == if intrCount != 0 && CountsMatch(tlist) then 0 else -1
      ensures ret == 0 ==>
        && pid == 0 && bin == tlist[0].job.binary
        && Used(tlist, |tlist|) <= ssTsk.Length && ssTsk[..] == Image(tlist, |tlist|, ssTsk.Length)
    {
      hide Overwritten, Image, Offset;
      if intrCount == 0 {
        return -1;
      }
      var n := |tlist|;
      var offset := CreateSsTask(tlist[0], n);
      ImageStart(tlist, ssTsk.Length);
      OffsetStart(tlist, n);
      var count := 0;
      while count < n
        invariant 0 <= count <= n && pid == 0 && bin == tlist[0].job.binary
        invariant offset == Offset(tlist, n, count) && CountsMatch(tlist[..count])
        invariant Used(tlist, count) <= ssTsk.Length && ssTsk[..] == Image(tlist, count, ssTsk.Length)
      {
        RecordFits(tlist, count);
        ssTsk[2 + count] := offset;
        var next := CreateMinorIdBond(tlist[count], offset / WORD);
        if next == 0 {
          assert !CountsMatch(tlist);
          return -1;
        }
        ImageNext(tlist, count, ssTsk.Length);
        assert tlist[..count + 1] == tlist[..count] + [tlist[count]];
        offset := next * WORD;
        count := count + 1;
      }
      assert tlist[..n] == tlist;
      return 0;
    }
  }

  /** mem with x written over it from position `at` on. */
  function Overwritten(mem: seq<int>, at: nat, x: seq<int>): (r: seq<int>)
    requires at + |x| <= |mem|
    ensures |r| == |mem|
  {
    mem[..at] + x + mem[at + |x|..]
  }

  lemma OverwrittenTwice(mem: seq<int>, at: nat, x: seq<int>, y: seq<int>)
    requires at + |x| + |y| <= |mem|
    ensures Overwritten(Overwritten(mem, at, x), at + |x|, y) == Overwritten(mem, at, x + y)
  {
  }

  function Zeros(n: nat): (z: seq<int>)
    ensures |z| == n && forall i :: 0 <= i < n ==> z[i] == 0
  {
    seq(n, _ => 0)
  }

  /** The words of the record area used by the first k jobs. */
  function Used(js: seq<SsJob>, k: nat): nat
    requires k <= |js|
  {
    2 + |js| + |Records(js[..k])|
  }

  /** The buffer after k jobs: head, k offsets, room for the others, k records, and zeros. */
  function Image(js: seq<SsJob>, k: nat, length: nat): (mem: seq<int>)
    requires js != [] && k <= |js|
    requires Used(js, k) <= length
    ensures |mem| == length
  {
    [js[0].job.majorId, |js|] + Offsets(js, |js|, k) + Zeros(|js| - k) + Records(js[..k]) + Zeros(length - Used(js, k))
  }

  lemma OffsetStart(js: seq<SsJob>, n: nat)
    requires n > 0
    ensures Offset(js, n, 0) == SsTaskOffset(n)
  {
  }

  lemma ImageStart(js: seq<SsJob>, length: nat)
    requires js != [] && 2 + |js| <= length
    ensures [js[0].job.majorId, |js|] + Zeros(length)[2..] == Image(js, 0, length)
  {
    assert js[..0] == [];
  }

  lemma OffsetInWords(js: seq<SsJob>, k: nat)
    requires k <= |js| && js != []
    ensures Offset(js, |js|, k) == WORD * Used(js, k)
    ensures Offset(js, |js|, k) % WORD == 0 && Offset(js, |js|, k) / WORD == Used(js, k)
  {
    hide Records;
  }

  /** There is room for the record of job k as it is announced. */
  lemma RecordFits(js: seq<SsJob>, k: nat)
    requires k < |js| && CountsMatch(js[..k])
    ensures Offset(js, |js|, k) % WORD == 0 && Offset(js, |js|, k) / WORD == Used(js, k)
    ensures Used(js, k) + 6 + 3 * js[k].job.intrCount <= 9 * |js| + 3 * JobIntrCount(js)
    ensures Used(js, k) <= 9 * |js| + 3 * JobIntrCount(js)
  {
    hide Records, JobIntrCount, Offset, CountsMatch;
    OffsetInWords(js, k);
    RecordsLength(js[..k]);
    CountWithin(js, k);
  }

  lemma {:induction false} CountWithin(js: seq<SsJob>, k: nat)
    requires k < |js|
    ensures JobIntrCount(js[..k]) + js[k].job.intrCount <= JobIntrCount(js)
    decreases |js|
  {
    JobIntrCountSnoc(js);
    if k < |js| - 1 {
      CountWithin(js[..|js| - 1], k);
      assert js[..|js| - 1][..k] == js[..k];
    }
  }

  /** Storing the offset and the record of job k takes the buffer from k jobs to k + 1. */
  lemma ImageNext(js: seq<SsJob>, k: nat, length: nat)
    requires k < |js| && Used(js, k) + |RecordWords(js[k])| <= length
    ensures Used(js, k + 1) == Used(js, k) + |RecordWords(js[k])|
    ensures Overwritten(Image(js, k, length)[2 + k := Offset(js, |js|, k)], Used(js, k), RecordWords(js[k]))
         == Image(js, k + 1, length)
  {
    assert js[..k + 1][..k] == js[..k];
  }

  // ---- reading back -------------------------------------------------------------------------------

  lemma {:induction false} BondWordsAt(bonds: seq<Bond>, i: nat)
    requires i < |bonds|
    ensures BondWords(bonds)[3 * i] == Unsigned(bonds[i].intrId)
    ensures BondWords(bonds)[3 * i + 1] == bonds[i].est && BondWords(bonds)[3 * i + 2] == 0
    decreases |bonds|
  {
    if i < |bonds| - 1 {
      BondWordsAt(bonds[..|bonds| - 1], i);
    }
  }

  lemma {:induction false} RecordsAt(js: seq<SsJob>, k: nat)
    requires k < |js|
    ensures |Records(js[..k])| + |RecordWords(js[k])| <= |Records(js)|
    ensures Records(js)[|Records(js[..k])|..|Records(js[..k])| + |RecordWords(js[k])|] == RecordWords(js[k])
    decreases |js|
  {
    hide RecordWords;
    if k < |js| - 1 {
      RecordsAt(js[..|js| - 1], k);
      assert js[..|js| - 1][..k] == js[..k];
      var lo, hi := |Records(js[..k])|, |Records(js[..k])| + |RecordWords(js[k])|;
      assert Records(js)[lo..hi] == Records(js[..|js| - 1])[lo..hi];
    }
  }

  /** The words of a job's record from position `at` on. */
  ghost predicate RecordAt(mem: seq<int>, at: nat, j: SsJob) {
    && at + 6 + 3 * |j.job.intr| <= |mem|
    && mem[at] == j.job.jid && mem[at + 1] == j.est && mem[at + 2] == j.job.wcet
    && mem[at + 3] == j.job.dl && mem[at + 4] == j.job.coreid && mem[at + 5] == j.job.intrCount
    && forall i :: 0 <= i < |j.job.intr| ==> BondAt(mem, at + 6 + 3 * i, j.job.intr[i])
  }

  ghost predicate BondAt(mem: seq<int>, at: nat, b: Bond) {
    at + 3 <= |mem| && mem[at] == Unsigned(b.intrId) && mem[at + 1] == b.est && mem[at + 2] == 0
  }

  /** Job k as it is found through its stored offset. */
  ghost predicate StoredJob(mem: seq<int>, k: nat, j: SsJob) {
    && 2 + k < |mem| && mem[2 + k] >= 0 && mem[2 + k] % WORD == 0
    && RecordAt(mem, mem[2 + k] / WORD, j)
  }

  lemma RecordDecodes(mem: seq<int>, at: nat, j: SsJob)
    requires at + |RecordWords(j)| <= |mem| && mem[at..at + |RecordWords(j)|] == RecordWords(j)
    ensures RecordAt(mem, at, j)
  {
    hide BondAt, BondWords, RecordWords;
    HeadDecodes(mem, at, j);
    forall i | 0 <= i < |j.job.intr| ensures BondAt(mem, at + 6 + 3 * i, j.job.intr[i]) {
      BondDecodes(mem, at, j, i);
    }
  }

  lemma SliceAt(mem: seq<int>, at: nat, w: seq<int>, n: nat)
    requires at + |w| <= |mem| && mem[at..at + |w|] == w && n < |w|
    ensures mem[at + n] == w[n]
  {
    assert mem[at..at + |w|][n] == w[n];
  }

  lemma HeadDecodes(mem: seq<int>, at: nat, j: SsJob)
    requires at + |RecordWords(j)| <= |mem| && mem[at..at + |RecordWords(j)|] == RecordWords(j)
    ensures mem[at] == j.job.jid && mem[at + 1] == j.est && mem[at + 2] == j.job.wcet
    ensures mem[at + 3] == j.job.dl && mem[at + 4] == j.job.coreid && mem[at + 5] == j.job.intrCount
  {
    hide BondWords;
    var w := RecordWords(j);
    SliceAt(mem, at, w, 0);
    SliceAt(mem, at, w, 1);
    SliceAt(mem, at, w, 2);
    SliceAt(mem, at, w, 3);
    SliceAt(mem, at, w, 4);
    SliceAt(mem, at, w, 5);
  }

  lemma BondDecodes(mem: seq<int>, at: nat, j: SsJob, i: nat)
    requires at + |RecordWords(j)| <= |mem| && mem[at..at + |RecordWords(j)|] == RecordWords(j) && i < |j.job.intr|
    ensures BondAt(mem, at + 6 + 3 * i, j.job.intr[i])
  {
    hide BondWords, HeadWords;
    var w := RecordWords(j);
    BondWordsAt(j.job.intr, i);
    SliceAt(mem, at, w, 6 + 3 * i);
    SliceAt(mem, at, w, 7 + 3 * i);
    SliceAt(mem, at, w, 8 + 3 * i);
  }

  lemma ImageHead(js: seq<SsJob>, k: nat, length: nat)
    requires k < |js| && Used(js, |js|) <= length
    ensures var mem := Image(js, |js|, length);
      mem[0] == js[0].job.majorId && mem[1] == |js| && mem[2 + k] == Offset(js, |js|, k)
  {
    hide Records;
  }

  /** Reading a filled buffer through its offsets gives back every job and every bond. */
  lemma ReadBack(js: seq<SsJob>, k: nat, length: nat)
    requires k < |js| && Used(js, |js|) <= length
    ensures var mem := Image(js, |js|, length);
      mem[0] == js[0].job.majorId && mem[1] == |js| && StoredJob(mem, k, js[k])
  {
    hide Image, Offset, RecordWords, RecordAt;
    ImageHead(js, k, length);
    OffsetInWords(js, k);
    RecordInImage(js, k, length);
    RecordDecodes(Image(js, |js|, length), Used(js, k), js[k]);
  }

  lemma RecordInImage(js: seq<SsJob>, k: nat, length: nat)
    requires k < |js| && Used(js, |js|) <= length
    ensures Used(js, k) + |RecordWords(js[k])| <= length
    ensures Image(js, |js|, length)[Used(js, k)..Used(js, k) + |RecordWords(js[k])|] == RecordWords(js[k])
  {
    hide Records, RecordWords, Offset;
    assert js[..|js|] == js;
    RecordsAt(js, k);
    var head := [js[0].job.majorId, |js|] + Offsets(js, |js|, |js|) + Zeros(0);
    var lo, hi := |Records(js[..k])|, |Records(js[..k])| + |RecordWords(js[k])|;
    assert |head| == 2 + |js|;
    assert Image(js, |js|, length) == head + Records(js) + Zeros(length - Used(js, |js|));
    assert Image(js, |js|, length)[2 + |js| + lo..2 + |js| + hi] == Records(js)[lo..hi];
  }
}
