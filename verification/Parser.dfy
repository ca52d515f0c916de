// The state machine that reads an offline table: a machine over sections, each section a machine
// over the fields of its rows.

module Parser {
  import opened TableFormat
  import opened Grammar
  import opened GrammarProofs
  import L = LocalList

  datatype TaskType = PeriodicTable | FirmTable | SoftTable

  // Primary states.
  const HP_START_STATE := 0
  const JOB_TRAVERSAL_START := 1
  const JOB_TRAVERSAL_FINISH := 2
  const INT_TRAVERSAL_START := 3
  const INT_TRAVERSAL_FINISH := 4
  const HP_END_STATE := 5
  const END_STATE := 6

  // States of a job row.
  const ST_JOB_START := 0
  const ST_JOB_MINOR_ID := 1
  const ST_JOB_MAJOR_ID := 2
  const ST_JOB_WCET := 3
  const ST_JOB_DL := 4
  const ST_JOB_COREID := 5
  const ST_JOB_INTR_COUNT := 6
  const ST_JOB_INTR_BOND := 7
  const ST_JOB_BINARY := 8
  const ST_JOB_NXT := 9
  const ST_JOB_END := 10

  // States of an interval row.
  const ST_INT_START := 0
  const ST_INT_ID := 1
  const ST_INT_CORE_ID := 2
  const ST_INT_START_TIME := 3
  const ST_INT_END_TIME := 4
  const ST_INT_SC := 5
  const ST_INT_TASK_COUNT := 6
  const ST_INT_JOBS_TRAVERSAL := 7
  const ST_INT_NXT := 8
  const ST_INT_END := 9

  /** What the job section still yields when the row machine is in `state` with `job` half read. */
  ghost function JobsFrom(state: nat, t: seq<Byte>, i: nat, job: Job, acc: seq<Job>): Read<seq<Job>>
    requires i <= |t|
  {
    if state == ST_JOB_START then ReadJobs(t, i, acc)
    else if state == ST_JOB_MINOR_ID then JobsAfter(t, FromMinorId(t, i, job), acc)
    else if state == ST_JOB_MAJOR_ID then JobsAfter(t, FromMajorId(t, i, job), acc)
    else if state == ST_JOB_WCET then JobsAfter(t, FromWcet(t, i, job), acc)
    else if state == ST_JOB_DL then JobsAfter(t, FromDl(t, i, job), acc)
    else if state == ST_JOB_COREID then JobsAfter(t, FromCoreId(t, i, job), acc)
    else if state == ST_JOB_INTR_COUNT then JobsAfter(t, FromIntrCount(t, i, job), acc)
    else if state == ST_JOB_INTR_BOND then JobsAfter(t, FromBonds(t, i, job), acc)
    else if state == ST_JOB_BINARY then JobsAfter(t, FromBinary(t, i, job), acc)
    else if state == ST_JOB_NXT then JobsAfter(t, Ok(job, i), acc)
    else Ok(acc, i)
  }

  ghost function IntrsFrom(state: nat, t: seq<Byte>, i: nat, x: Intr, acc: seq<Intr>): Read<seq<Intr>>
    requires i <= |t|
  {
    if state == ST_INT_START then ReadIntrs(t, i, acc)
    else if state == ST_INT_ID then IntrsAfter(t, FromIntrId(t, i, x), acc)
    else if state == ST_INT_CORE_ID then IntrsAfter(t, FromIntrCore(t, i, x), acc)
    else if state == ST_INT_START_TIME then IntrsAfter(t, FromStart(t, i, x), acc)
    else if state == ST_INT_END_TIME then IntrsAfter(t, FromEnd(t, i, x), acc)
    else if state == ST_INT_SC then IntrsAfter(t, FromSc(t, i, x), acc)
    else if state == ST_INT_TASK_COUNT then IntrsAfter(t, FromTaskCount(t, i, x), acc)
    else if state == ST_INT_JOBS_TRAVERSAL || state == ST_INT_NXT then IntrsAfter(t, Ok(x, i), acc)
    else Ok(acc, i)
  }

  /** One step of the row machine, as the actions and transitions of the machine describe it. */
  lemma JobStep(state: nat, t: seq<Byte>, i: nat, job: Job, acc: seq<Job>)
    requires i <= |t| && state <= ST_JOB_NXT
    ensures state == ST_JOB_START ==>
      JobsFrom(state, t, i, job, acc) == JobsFrom(ST_JOB_MINOR_ID, t, i, BLANK_JOB, acc)
    ensures ST_JOB_MINOR_ID <= state <= ST_JOB_INTR_COUNT ==>
      JobsFrom(state, t, i, job, acc) ==
        var (w, n) :- ReadWord(t, i);
        var (_, n') :- ReadByte(t, n, COMMA);
        JobsFrom(state + 1, t, n', WithField(job, state, w), acc)
    ensures state == ST_JOB_INTR_BOND ==>
      JobsFrom(state, t, i, job, acc) ==
        var (bs, n) :- ReadBondArea(t, i, job.intrCount);
        var (_, n') :- ReadByte(t, n, COMMA);
        JobsFrom(ST_JOB_BINARY, t, n', job.(intr := bs), acc)
    ensures state == ST_JOB_BINARY ==>
      JobsFrom(state, t, i, job, acc) ==
        var (p, n) :- ReadPath(t, i);
        JobsFrom(ST_JOB_NXT, t, n, job.(binary := p), acc)
    ensures state == ST_JOB_NXT ==>
      JobsFrom(state, t, i, job, acc) ==
        if job.intr == [] then Undefined
        else
          var (_, n) :- ReadEol(t, i);
          if !CanPeek(t, n) then Undefined
          else JobsFrom(if LooksLikeSep(t, n) then ST_JOB_END else ST_JOB_START, t, n, job, [job] + acc)
  {
    hide ReadBondArea, ReadPath, ReadEol, CanPeek, LooksLikeSep, WordAt;
  }

  lemma IntStep(state: nat, t: seq<Byte>, i: nat, x: Intr, acc: seq<Intr>)
    requires i <= |t| && state <= ST_INT_NXT
    ensures state == ST_INT_START ==>
      IntrsFrom(state, t, i, x, acc) == IntrsFrom(ST_INT_ID, t, i, BLANK_INTR, acc)
    ensures ST_INT_ID <= state <= ST_INT_SC ==>
      IntrsFrom(state, t, i, x, acc) ==
        var (w, n) :- ReadWord(t, i);
        var (_, n') :- ReadByte(t, n, COMMA);
        IntrsFrom(state + 1, t, n', WithIntrField(x, state, w), acc)
    ensures state == ST_INT_TASK_COUNT ==>
      IntrsFrom(state, t, i, x, acc) ==
        var (w, n) :- ReadWord(t, i);
        IntrsFrom(ST_INT_JOBS_TRAVERSAL, t, n, WithIntrField(x, state, w), acc)
    ensures state == ST_INT_JOBS_TRAVERSAL ==> IntrsFrom(state, t, i, x, acc) == IntrsFrom(ST_INT_NXT, t, i, x, acc)
    ensures state == ST_INT_NXT ==>
      IntrsFrom(state, t, i, x, acc) ==
        var (_, n) :- ReadEol(t, i);
        if !CanPeek(t, n) then Undefined
        else IntrsFrom(if LooksLikeSep(t, n) then ST_INT_END else ST_INT_START, t, n, x, [x] + acc)
  {
    hide ReadEol, CanPeek, LooksLikeSep, WordAt;
  }

  class Fsm {
    const tableType: TaskType
    const file: seq<Byte>
    var pos: nat                 // how far the file was read
    var currState: nat
    var prevState: nat
    var retValue: int            // 0: going on, -1: failed, 1: done
    var table: seq<Byte>         // the body of the current hyperperiod
    var idx: nat
    var tasks: seq<Job>          // newest first
    var interval: seq<Intr>      // newest first
    var resData: seq<Header>     // at most one
    var undefined: bool          // the outcome depends on memory that was not written

    constructor (tableType: TaskType, file: seq<Byte>)
      ensures this.tableType == tableType && this.file == file && pos == 0 && idx == 0
      ensures currState == HP_START_STATE && retValue == 0 && !undefined && table == []
      ensures tasks == [] && interval == [] && resData == []
    {
      this.tableType, this.file, pos := tableType, file, 0;
      currState, prevState, retValue := HP_START_STATE, HP_START_STATE, 0;
      table, idx, tasks, interval, resData, undefined := [], 0, [], [], [], false;
    }

    // ---- reading at the index -------------------------------------------------------------

    /** A word at the index. */
    method Stoi() returns (w: Word)
      requires retValue != -1 && !undefined && idx <= |table|
      modifies this`idx, this`retValue, this`undefined
      ensures idx <= |table|
      ensures match ReadWord(table, old(idx))
        case Ok(v, n) => w == v && idx == n && retValue == old(retValue) && !undefined
        case Refused => retValue == -1 && !undefined
        case Undefined => retValue == -1 && undefined
    {
      w := 0;
      if idx + 4 > |table| {
        undefined, retValue := true, -1;
        return;
      }
      w := WordAt(table, idx);
      idx := idx + 4;
    }

    /** One byte at the index has to be b. */
    method Expect(b: Byte)
      requires retValue != -1 && !undefined && idx <= |table|
      modifies this`idx, this`retValue, this`undefined
      ensures idx <= |table|
      ensures match ReadByte(table, old(idx), b)
        case Ok(_, n) => idx == n && retValue == old(retValue) && !undefined
        case Refused => retValue == -1 && !undefined
        case Undefined => retValue == -1 && undefined
    {
      if idx >= |table| {
        undefined, retValue := true, -1;
      } else if table[idx] != b {
        retValue := -1;
      } else {
        idx := idx + 1;
      }
    }

    /** A separator with the given magic number has to stand at the index. */
    method CheckHeaderConsistency(magic: Word)
      requires retValue != -1 && !undefined
      modifies this`idx, this`retValue, this`undefined
      ensures match ReadSep(table, old(idx), magic)
        case Ok(_, n) => idx == n <= |table| && retValue == old(retValue) && !undefined
        case Refused => retValue == -1 && !undefined
        case Undefined => retValue == -1 && undefined
    {
      var i := idx;
      if i >= |table| {
        undefined, retValue := true, -1;
        return;
      }
      if table[i] != BANG {
        retValue := -1;
        return;
      }
      if i + 5 > |table| {
        undefined, retValue := true, -1;
        return;
      }
      if WordAt(table, i + 1) != magic {
        retValue := -1;
        return;
      }
      if i + 6 >= |table| {
        undefined, retValue := true, -1;
        return;
      }
      if table[i + 6] != LF || table[i + 5] != CR {
        retValue := -1;
        return;
      }
      idx := i + 7;
    }

    // ---- job rows ---------------------------------------------------------------------------

    /** Copy the path up to the first pad byte and terminate it: dst is what is written, n the number
        of bytes copied. The index moves over the whole field. */
    method Strncpy() returns (dst: seq<Byte>, n: nat)
      requires retValue != -1 && !undefined && idx <= |table|
      modifies this`idx, this`retValue, this`undefined
      ensures idx <= |table|
      ensures match ReadPath(table, old(idx))
        case Ok(p, next) => dst == p + [NUL] && n == |p| && idx == next && retValue == old(retValue) && !undefined
        case Refused => retValue == -1 && !undefined
        case Undefined => retValue == -1 && undefined
    {
      dst, n := [], 0;
      if idx + PATH_MAX > |table| {
        undefined, retValue := true, -1;
        return;
      }
      while n < PATH_MAX && table[idx + n] != PAD
        invariant 0 <= n <= PATH_MAX && dst == table[idx..idx + n] && PAD !in dst
      {
        dst := dst + [table[idx + n]];
        n := n + 1;
      }
      PathLengthOf(table, idx, PATH_MAX, n);
      dst := dst + [NUL];
      idx := idx + PATH_MAX;
    }

    /** Read one bond at offset `halt` behind the index. */
    method PerJiAsco(halt: nat) returns (bond: Bond)
      requires retValue != -1 && !undefined && idx <= |table|
      modifies this`retValue, this`undefined
      ensures match ReadBond(table, idx + halt)
        case Ok(b, n) => bond == b && retValue == old(retValue) && !undefined
        case Refused => retValue == -1 && !undefined
        case Undefined => retValue == -1 && undefined
    {
      hide WordAt, Signed;
      bond := Bond(0, 0);
      var buffer := idx + halt;
      if buffer + 4 >= |table| {
        undefined, retValue := true, -1;
        return;
      }
      var intrId := Signed(WordAt(table, buffer));
      if table[buffer + 4] != COLON {
        retValue := -1;
        return;
      }
      if buffer + 9 >= |table| {
        undefined, retValue := true, -1;
        return;
      }
      var est := WordAt(table, buffer + 5);
      if table[buffer + 9] != COMMA {
        retValue := -1;
        return;
      }
      bond := Bond(intrId, est);
    }

    /** The bonds of a job, between brackets; the index moves behind them. */
    method JobIntrAsco(count: Word) returns (bonds: seq<Bond>)
      requires retValue != -1 && !undefined && idx <= |table|
      modifies this`idx, this`retValue, this`undefined
      ensures idx <= |table|
      ensures match ReadBondArea(table, old(idx), count)
        case Ok(bs, n) => bonds == bs && idx == n && retValue == old(retValue) && !undefined
        case Refused => retValue == -1 && !undefined
        case Undefined => retValue == -1 && undefined
    {
      hide ReadBond;
      bonds := [];
      if idx >= |table| {
        undefined, retValue := true, -1;
        return;
      }
      if table[idx] != OPEN {
        retValue := -1;
        return;
      }
      ghost var whole := ReadBonds(table, idx, 1, count, []);
      var halt := 1;
      while true
        invariant halt == 1 + 10 * |bonds| && idx == old(idx)
        invariant retValue == old(retValue) && !undefined
        invariant ReadBonds(table, idx, halt, count, bonds) == whole
        decreases |table| - idx - halt
      {
        if idx + halt >= |table| {
          undefined, retValue := true, -1;
          return;
        }
        if table[idx + halt] == CLOSE || halt >= BondLimit(count) {
          break;
        }
        var bond := PerJiAsco(halt);
        if retValue == -1 {
          return;
        }
        bonds := bonds + [bond];
        halt := halt + 10;
      }
      if |bonds| != count {
        retValue := -1;
        return;
      }
      idx := idx + 10 * |bonds| + 2;
    }

    /** The transition of the row machine behind state `curr`. */
    method JobDecideNxt(curr: nat) returns (nxt: nat)
      requires curr <= ST_JOB_END && idx <= |table| && (undefined ==> retValue == -1)
      modifies this`idx, this`retValue, this`undefined
      ensures idx <= |table| && nxt <= ST_JOB_END && (undefined ==> retValue == -1)
      ensures old(retValue) == -1 ==> nxt == ST_JOB_END && retValue == -1 && idx == old(idx) && undefined == old(undefined)
      ensures old(retValue) != -1 && (curr == ST_JOB_START || curr == ST_JOB_BINARY) ==>
        nxt == curr + 1 && idx == old(idx) && retValue == old(retValue) && !undefined
      ensures old(retValue) != -1 && curr == ST_JOB_END ==>
        nxt == curr && idx == old(idx) && retValue == old(retValue) && !undefined
      ensures old(retValue) != -1 && ST_JOB_MINOR_ID <= curr <= ST_JOB_INTR_BOND ==>
        match ReadByte(table, old(idx), COMMA)
        case Ok(_, n) => nxt == curr + 1 && idx == n && retValue == old(retValue) && !undefined
        case Refused => nxt == ST_JOB_END && retValue == -1 && !undefined
        case Undefined => nxt == ST_JOB_END && retValue == -1 && undefined
      ensures old(retValue) != -1 && curr == ST_JOB_NXT ==>
        match ReadEol(table, old(idx))
        case Ok(_, n) =>
          if !CanPeek(table, n) then nxt == ST_JOB_END && retValue == -1 && undefined
          else if LooksLikeSep(table, n) then nxt == ST_JOB_END && idx == n && retValue == 0 && !undefined
          else nxt == ST_JOB_START && idx == n && retValue == old(retValue) && !undefined
        case Refused => nxt == ST_JOB_END && retValue == -1 && !undefined
        case Undefined => nxt == ST_JOB_END && retValue == -1 && undefined
    {
      if retValue == -1 {
        return ST_JOB_END;
      } else if curr == ST_JOB_START || curr == ST_JOB_BINARY {
        return curr + 1;
      } else if curr == ST_JOB_NXT {
        nxt := NextRow(ST_JOB_START, ST_JOB_END);
      } else if curr == ST_JOB_END {
        return curr;
      } else {
        Expect(COMMA);
        nxt := if retValue == -1 then ST_JOB_END else curr + 1;
      }
    }

    /** Behind a row: its line end, then a look at what comes next. */
    method NextRow(again: nat, end: nat) returns (nxt: nat)
      requires retValue != -1 && !undefined && idx <= |table|
      modifies this`idx, this`retValue, this`undefined
      ensures idx <= |table| && (undefined ==> retValue == -1)
      ensures match ReadEol(table, old(idx))
        case Ok(_, n) =>
          if !CanPeek(table, n) then nxt == end && retValue == -1 && undefined
          else if LooksLikeSep(table, n) then nxt == end && idx == n && retValue == 0 && !undefined
          else nxt == again && idx == n && retValue == old(retValue) && !undefined
        case Refused => nxt == end && retValue == -1 && !undefined
        case Undefined => nxt == end && retValue == -1 && undefined
    {
      nxt := end;
      var i := idx;
      if i >= |table| || (table[i] == CR && i + 1 >= |table|) {
        undefined, retValue := true, -1;
        return;
      }
      if table[i] != CR || table[i + 1] != LF {
        retValue := -1;
        return;
      }
      i := i + 2;
      if i >= |table| || (table[i] == BANG && i + 6 >= |table|) {
        undefined, retValue := true, -1;
        return;
      }
      if table[i] == BANG && table[i + 6] == LF && table[i + 5] == CR {
        retValue := 0;
      } else {
        nxt := again;
      }
      idx := idx + 2;
    }

    /** One action of the row machine. */
    method JobAction(state: nat, job: Job) returns (job': Job)
      requires state <= ST_JOB_NXT && retValue != -1 && !undefined && idx <= |table|
      modifies this`idx, this`retValue, this`undefined, this`tasks
      ensures idx <= |table| && (undefined ==> retValue == -1)
      ensures state != ST_JOB_NXT ==> tasks == old(tasks)
      ensures state == ST_JOB_START ==> job' == BLANK_JOB && idx == old(idx) && retValue == old(retValue) && !undefined
      ensures state == ST_JOB_NXT ==>
        if job.intr == [] then retValue == -1 && undefined
        else tasks == [job] + old(tasks) && job' == job && idx == old(idx) && retValue == old(retValue) && !undefined
      ensures ST_JOB_MINOR_ID <= state <= ST_JOB_INTR_COUNT ==>
        match ReadWord(table, old(idx))
        case Ok(w, n) => job' == WithField(job, state, w) && idx == n && retValue == old(retValue) && !undefined
        case Refused => retValue == -1 && !undefined
        case Undefined => retValue == -1 && undefined
      ensures state == ST_JOB_INTR_BOND ==>
        match ReadBondArea(table, old(idx), job.intrCount)
        case Ok(bs, n) => job' == job.(intr := bs) && idx == n && retValue == old(retValue) && !undefined
        case Refused => retValue == -1 && !undefined
        case Undefined => retValue == -1 && undefined
      ensures state == ST_JOB_BINARY ==>
        match ReadPath(table, old(idx))
        case Ok(p, n) => job' == job.(binary := p) && idx == n && retValue == old(retValue) && !undefined
        case Refused => retValue == -1 && !undefined
        case Undefined => retValue == -1 && undefined
    {
      hide ReadBonds, ReadBondArea, ReadPath;
      job' := job;
      if state == ST_JOB_START {
        job' := BLANK_JOB;
      } else if state == ST_JOB_BINARY {
        var dst, n := Strncpy();
        job' := job.(binary := if retValue == -1 then [] else dst[..n]);
      } else if state == ST_JOB_INTR_BOND {
        var bonds := JobIntrAsco(job.intrCount);
        job' := job.(intr := bonds);
      } else if state == ST_JOB_NXT {
        if job.intr == [] {
          undefined, retValue := true, -1;
          return;
        }
        tasks := [job] + tasks;
      } else {
        var w := Stoi();
        job' := WithField(job, state, w);
      }
    }

    /** Action and transition of the row machine. */
    method JobRowStep(state: nat, job: Job) returns (state': nat, job': Job)
      requires state <= ST_JOB_NXT && retValue != -1 && !undefined && idx <= |table|
      modifies this`idx, this`retValue, this`undefined, this`tasks
      ensures idx <= |table| && state' <= ST_JOB_END
      ensures retValue != -1 ==>
        && !undefined && (retValue == old(retValue) || retValue == 0)
        && JobsFrom(state', table, idx, job', tasks) == JobsFrom(state, table, old(idx), job, old(tasks))
        && old(idx) <= idx && (idx == old(idx) ==> state' == state + 1)
      ensures retValue == -1 ==>
        && state' == ST_JOB_END
        && JobsFrom(state, table, old(idx), job, old(tasks)) == if undefined then Undefined else Refused
    {
      hide ReadBondArea, ReadPath, ReadEol, CanPeek, LooksLikeSep, WordAt, JobsFrom;
      JobStep(state, table, idx, job, tasks);
      StepsForward(table, idx, job.intrCount);
      job' := JobAction(state, job);
      state' := JobDecideNxt(state);
    }

    /** The job section behind its start separator. */
    method JobTraversalStart()
      requires retValue == 0 && !undefined
      modifies this`idx, this`retValue, this`undefined, this`tasks
      ensures retValue == 0 || retValue == -1
      ensures match JobsBehindSep(table, old(idx), old(tasks))
        case Ok(js, n) => retValue == 0 && !undefined && tasks == js && idx == n
        case Refused => retValue == -1 && !undefined
        case Undefined => retValue == -1 && undefined
    {
      hide JobsFrom, ReadSep;
      CheckHeaderConsistency(JOB_START);
      if retValue == -1 {
        return;
      }
      ghost var whole := ReadJobs(table, idx, tasks);
      JobEnds(table, idx, BLANK_JOB, tasks);
      var state: nat, job := ST_JOB_START, BLANK_JOB;
      while state != ST_JOB_END
        invariant idx <= |table| && state <= ST_JOB_END && (retValue == 0 || retValue == -1)
        invariant retValue == 0 ==> !undefined && JobsFrom(state, table, idx, job, tasks) == whole
        invariant retValue == -1 ==> state == ST_JOB_END && whole == if undefined then Undefined else Refused
        decreases if retValue == 0 then 1 else 0, |table| - idx, ST_JOB_END - state
      {
        state, job := JobRowStep(state, job);
      }
      JobEnds(table, idx, job, tasks);
    }

    // ---- interval rows ------------------------------------------------------------------------

    /** The transition of the interval row machine behind state `curr`. */
    method IntDecideNxt(curr: nat) returns (nxt: nat)
      requires curr <= ST_INT_END && idx <= |table| && (undefined ==> retValue == -1)
      modifies this`idx, this`retValue, this`undefined
      ensures idx <= |table| && nxt <= ST_INT_END && (undefined ==> retValue == -1)
      ensures old(retValue) == -1 ==> nxt == ST_INT_END && retValue == -1 && idx == old(idx) && undefined == old(undefined)
      ensures old(retValue) != -1 && (curr == ST_INT_START || curr == ST_INT_TASK_COUNT || curr == ST_INT_JOBS_TRAVERSAL) ==>
        nxt == curr + 1 && idx == old(idx) && retValue == old(retValue) && !undefined
      ensures old(retValue) != -1 && curr == ST_INT_END ==>
        nxt == curr && idx == old(idx) && retValue == old(retValue) && !undefined
      ensures old(retValue) != -1 && ST_INT_ID <= curr <= ST_INT_SC ==>
        match ReadByte(table, old(idx), COMMA)
        case Ok(_, n) => nxt == curr + 1 && idx == n && retValue == old(retValue) && !undefined
        case Refused => nxt == ST_INT_END && retValue == -1 && !undefined
        case Undefined => nxt == ST_INT_END && retValue == -1 && undefined
      ensures old(retValue) != -1 && curr == ST_INT_NXT ==>
        match ReadEol(table, old(idx))
        case Ok(_, n) =>
          if !CanPeek(table, n) then nxt == ST_INT_END && retValue == -1 && undefined
          else if LooksLikeSep(table, n) then nxt == ST_INT_END && idx == n && retValue == 0 && !undefined
          else nxt == ST_INT_START && idx == n && retValue == old(retValue) && !undefined
        case Refused => nxt == ST_INT_END && retValue == -1 && !undefined
        case Undefined => nxt == ST_INT_END && retValue == -1 && undefined
    {
      if retValue == -1 {
        return ST_INT_END;
      } else if curr == ST_INT_START || curr == ST_INT_TASK_COUNT || curr == ST_INT_JOBS_TRAVERSAL {
        return curr + 1;
      } else if curr == ST_INT_NXT {
        nxt := NextRow(ST_INT_START, ST_INT_END);
      } else if curr == ST_INT_END {
        return curr;
      } else {
        Expect(COMMA);
        nxt := if retValue == -1 then ST_INT_END else curr + 1;
      }
    }

    /** One action of the interval row machine. */
    method IntAction(state: nat, x: Intr) returns (x': Intr)
      requires state <= ST_INT_NXT && retValue != -1 && !undefined && idx <= |table|
      modifies this`idx, this`retValue, this`undefined, this`interval
      ensures idx <= |table| && (undefined ==> retValue == -1)
      ensures state != ST_INT_NXT ==> interval == old(interval)
      ensures state == ST_INT_START ==> x' == BLANK_INTR
      ensures state == ST_INT_JOBS_TRAVERSAL || state == ST_INT_NXT ==> x' == x
      ensures state == ST_INT_NXT ==> interval == [x] + old(interval)
      ensures state == ST_INT_START || state >= ST_INT_JOBS_TRAVERSAL ==>
        idx == old(idx) && retValue == old(retValue) && !undefined
      ensures ST_INT_ID <= state <= ST_INT_TASK_COUNT ==>
        match ReadWord(table, old(idx))
        case Ok(w, n) => x' == WithIntrField(x, state, w) && idx == n && retValue == old(retValue) && !undefined
        case Refused => retValue == -1 && !undefined
        case Undefined => retValue == -1 && undefined
    {
      x' := x;
      if state == ST_INT_START {
        x' := BLANK_INTR;
      } else if state == ST_INT_NXT {
        interval := [x] + interval;
      } else if state != ST_INT_JOBS_TRAVERSAL {
        var w := Stoi();
        x' := WithIntrField(x, state, w);
      }
    }

    /** Action and transition of the interval row machine. */
    method IntRowStep(state: nat, x: Intr) returns (state': nat, x': Intr)
      requires state <= ST_INT_NXT && retValue != -1 && !undefined && idx <= |table|
      modifies this`idx, this`retValue, this`undefined, this`interval
      ensures idx <= |table| && state' <= ST_INT_END
      ensures retValue != -1 ==>
        && !undefined && (retValue == old(retValue) || retValue == 0)
        && IntrsFrom(state', table, idx, x', interval) == IntrsFrom(state, table, old(idx), x, old(interval))
        && old(idx) <= idx && (idx == old(idx) ==> state' == state + 1)
      ensures retValue == -1 ==>
        && state' == ST_INT_END
        && IntrsFrom(state, table, old(idx), x, old(interval)) == if undefined then Undefined else Refused
    {
      hide ReadEol, CanPeek, LooksLikeSep, WordAt, IntrsFrom;
      IntStep(state, table, idx, x, interval);
      StepsForward(table, idx, 0);
      x' := IntAction(state, x);
      state' := IntDecideNxt(state);
    }

    /** The interval section behind its start separator. */
    method IntTraversalStart()
      requires retValue == 0 && !undefined
      modifies this`idx, this`retValue, this`undefined, this`interval
      ensures retValue == 0 || retValue == -1
      ensures match IntrsBehindSep(table, old(idx), old(interval))
        case Ok(xs, n) => retValue == 0 && !undefined && interval == xs && idx == n
        case Refused => retValue == -1 && !undefined
        case Undefined => retValue == -1 && undefined
    {
      hide IntrsFrom, ReadSep;
      CheckHeaderConsistency(INTERVAL_START);
      if retValue == -1 {
        return;
      }
      ghost var whole := ReadIntrs(table, idx, interval);
      IntEnds(table, idx, BLANK_INTR, interval);
      var state: nat, x := ST_INT_START, BLANK_INTR;
      while state != ST_INT_END
        invariant idx <= |table| && state <= ST_INT_END && (retValue == 0 || retValue == -1)
        invariant retValue == 0 ==> !undefined && IntrsFrom(state, table, idx, x, interval) == whole
        invariant retValue == -1 ==> state == ST_INT_END && whole == if undefined then Undefined else Refused
        decreases if retValue == 0 then 1 else 0, |table| - idx, ST_INT_END - state
      {
        state, x := IntRowStep(state, x);
      }
      IntEnds(table, idx, x, interval);
    }

    // ---- sections ---------------------------------------------------------------------------

    function Collected(): Data
      reads this
    {
      Data(tasks, interval, resData)
    }

    /** What the whole run still yields from here. */
    ghost function Ahead(): Outcome
      reads this
    {
      if currState == HP_START_STATE then ParseFrom(tableType, file, pos, idx, Collected())
      else FileAfter(tableType, file, pos, resData,
                     BodyFrom(currState, tableType == PeriodicTable, table, idx, Lists(tasks, interval)))
    }

    /** Read the header of a hyperperiod and bring its body into the buffer. */
    method HpStart()
      requires retValue == 0 && !undefined && currState == HP_START_STATE
      modifies this`retValue, this`pos, this`resData, this`table
      ensures pos <= |file| || pos == old(pos)
      ensures retValue == 1 ==> ParseFrom(tableType, file, old(pos), idx, old(Collected())) == Parsed(Collected())
      ensures retValue == -1 ==> ParseFrom(tableType, file, old(pos), idx, old(Collected())) == Failed
      ensures retValue == 0 ==>
        && old(pos) < pos <= |file|
        && ParseFrom(tableType, file, old(pos), idx, old(Collected()))
          == FileAfter(tableType, file, pos, resData,
                       ReadBody(tableType == PeriodicTable, table, idx, Lists(tasks, interval)))
      ensures retValue == 0 || retValue == 1 || retValue == -1
    {
      hide ReadBody, ReadSep, BufferLength, WordAt;
      if pos + 33 > |file| {
        retValue := 1;
        return;
      }
      var sep := ReadSep(file, pos, HP_START);
      if !sep.Ok? {
        retValue := -1;
        return;
      }
      var h := HeaderAt(file, pos);
      resData := [h];
      var len := BodyLen(tableType, h);
      if len + 5 >= 0x8000_0000 || len == 0 || pos + 33 + len > |file| {
        retValue := -1;
        return;
      }
      table := file[pos + 33..pos + 33 + len];
      pos := pos + 33 + len;
    }

    /** The action of the current section; sections without one are passed over. */
    method RunState()
      requires retValue == 0 && !undefined && HP_START_STATE <= currState <= HP_END_STATE
      requires pos <= |file|
      modifies this`idx, this`retValue, this`undefined, this`tasks, this`interval, this`pos, this`resData, this`table
      ensures (retValue == 0 || retValue == 1 || retValue == -1) && pos <= |file|
      ensures retValue == 1 ==> old(Ahead()) == Parsed(Collected()) && !undefined
      ensures retValue == -1 ==> old(Ahead()) == if undefined then Indeterminate else Failed
      ensures retValue == 0 ==> !undefined && old(Ahead()) == BehindState()
      ensures retValue == 0 ==> old(pos) <= pos <= |file| && (currState == HP_START_STATE ==> old(pos) < pos)
    {
      hide ReadBody, ReadSep, ReadJobs, ReadIntrs, ParseFrom;
      ghost var periodic := tableType == PeriodicTable;
      StageOf(currState, periodic, table, idx, Lists(tasks, interval));
      if currState == HP_START_STATE {
        HpStart();
      } else if currState == JOB_TRAVERSAL_START {
        JobTraversalStart();
      } else if currState == JOB_TRAVERSAL_FINISH {
        CheckHeaderConsistency(JOB_END);
      } else if currState == INT_TRAVERSAL_START {
        if tableType == PeriodicTable {
          IntTraversalStart();
        }
      } else if currState == INT_TRAVERSAL_FINISH {
        if tableType == PeriodicTable {
          CheckHeaderConsistency(INTERVAL_END);
        }
      } else {
        CheckHeaderConsistency(HP_END);
      }
    }

    /** What the whole run still yields once the current section is done. */
    ghost function BehindState(): Outcome
      reads this
    {
      if currState == HP_END_STATE then ParseFrom(tableType, file, pos, idx, Collected())
      else FileAfter(tableType, file, pos, resData,
                     BodyFrom(currState + 1, tableType == PeriodicTable, table, idx, Lists(tasks, interval)))
    }

    /** Move to the next section, or to the end state after a failure; the result is 1 when the run is over. */
    method TransitionFn() returns (exit: int)
      requires HP_START_STATE <= currState <= END_STATE && -1 <= retValue <= 1
      modifies this`currState, this`prevState
      ensures old(currState) == END_STATE ==>
        exit == retValue && currState == END_STATE && prevState == old(prevState)
      ensures old(currState) != END_STATE ==> prevState == old(currState)
      ensures old(currState) != END_STATE && retValue == -1 ==> exit == 0 && currState == END_STATE
      ensures old(currState) != END_STATE && retValue != -1 ==>
        exit == retValue && currState == if old(currState) == HP_END_STATE then HP_START_STATE else old(currState) + 1
    {
      if currState == HP_END_STATE {
        prevState := currState;
        currState := HP_START_STATE;
      } else if currState == END_STATE {
        return retValue;
      } else {
        prevState := currState;
        currState := currState + 1;
      }
      if retValue != 0 {
        if retValue == -1 {
          currState := END_STATE;
          return 0;
        }
        return 1;
      }
      return 0;
    }
  }

  /** Read a whole file. Without a result the run failed, or its outcome
      depends on memory that was not written. */
  method ParsingMain(file: seq<Byte>, tableType: TaskType) returns (data: seq<Data>, undefined: bool)
    ensures match ParseFrom(tableType, file, 0, 0, Data([], [], []))
      case Parsed(d) => data == [d] && !undefined
      case Failed => data == [] && !undefined
      case Indeterminate => data == [] && undefined
  {
    hide ParseFrom, BodyFrom, FileAfter;
    var fsm := new Fsm(tableType, file);
    ghost var whole := ParseFrom(tableType, file, 0, 0, Data([], [], []));
    var exit := 0;
    while exit == 0
      invariant fresh(fsm) && fsm.file == file && fsm.tableType == tableType
      invariant HP_START_STATE <= fsm.currState <= HP_END_STATE && !fsm.undefined && fsm.pos <= |file|
      invariant exit != 0 ==> fsm.retValue == 1 && whole == Parsed(fsm.Collected())
      invariant exit == 0 ==> fsm.retValue == 0 && fsm.Ahead() == whole
      decreases if exit != 0 then 0 else 1, |file| - fsm.pos,
        if fsm.currState == HP_START_STATE then 0 else 1 + END_STATE - fsm.currState
    {
      fsm.RunState();
      if fsm.retValue == -1 {
        return [], fsm.undefined;
      }
      exit := fsm.TransitionFn();
    }
    return [fsm.Collected()], false;
  }

  lemma JobEnds(t: seq<Byte>, i: nat, job: Job, acc: seq<Job>)
    requires i <= |t|
    ensures JobsFrom(ST_JOB_END, t, i, job, acc) == Ok(acc, i)
    ensures JobsFrom(ST_JOB_START, t, i, job, acc) == ReadJobs(t, i, acc)
  {
  }

  /** What is read moves the position forward. */
  lemma StepsForward(t: seq<Byte>, i: nat, count: Word)
    ensures ReadBondArea(t, i, count).Ok? ==> ReadBondArea(t, i, count).next > i
    ensures ReadPath(t, i).Ok? ==> ReadPath(t, i).next > i
    ensures forall k :: ReadEol(t, k).Ok? ==> ReadEol(t, k).next > k
  {
  }

  function JobsBehindSep(t: seq<Byte>, i: nat, acc: seq<Job>): Read<seq<Job>> {
    var (_, n) :- ReadSep(t, i, JOB_START);
    ReadJobs(t, n, acc)
  }

  lemma IntEnds(t: seq<Byte>, i: nat, x: Intr, acc: seq<Intr>)
    requires i <= |t|
    ensures IntrsFrom(ST_INT_END, t, i, x, acc) == Ok(acc, i)
    ensures IntrsFrom(ST_INT_START, t, i, x, acc) == ReadIntrs(t, i, acc)
  {
  }

  function IntrsBehindSep(t: seq<Byte>, i: nat, acc: seq<Intr>): Read<seq<Intr>> {
    var (_, n) :- ReadSep(t, i, INTERVAL_START);
    ReadIntrs(t, n, acc)
  }

  function WithIntrField(x: Intr, state: nat, w: Word): Intr {
    if state == ST_INT_ID then x.(intrId := w)
    else if state == ST_INT_CORE_ID then x.(core := w)
    else if state == ST_INT_START_TIME then x.(start := w)
    else if state == ST_INT_END_TIME then x.(end := w)
    else if state == ST_INT_SC then x.(sc := Signed(w))
    else x.(noOfTsk := w)
  }

  function WithField(job: Job, state: nat, w: Word): Job {
    if state == ST_JOB_MINOR_ID then job.(jid := w)
    else if state == ST_JOB_MAJOR_ID then job.(majorId := w)
    else if state == ST_JOB_WCET then job.(wcet := w)
    else if state == ST_JOB_DL then job.(dl := w)
    else if state == ST_JOB_COREID then job.(coreid := w)
    else job.(intrCount := w)
  }

  // ---- the whole file -------------------------------------------------------------------------

  /** Jobs and intervals newest first, and the header of the last hyperperiod. */
  datatype Data = Data(jobs: seq<Job>, intrs: seq<Intr>, header: seq<Header>)

  datatype Outcome = Parsed(data: Data) | Failed | Indeterminate

  function HeaderAt(file: seq<Byte>, pos: nat): Header
    requires pos + 33 <= |file|
  {
    Header(WordAt(file, pos + 7), WordAt(file, pos + 12), WordAt(file, pos + 17),
           WordAt(file, pos + 22), WordAt(file, pos + 27))
  }

  /** The body length computed from a header, in 32 bits. */
  function BodyLen(tableType: TaskType, h: Header): nat {
    BufferLength(tableType == PeriodicTable, h.intCount, h.jobCount, h.intrJobAsc) % 0x1_0000_0000
  }

  /** Hyperperiods from position pos on; the index into the body is not reset between them. */
  function ParseFrom(tableType: TaskType, file: seq<Byte>, pos: nat, idx: nat, d: Data): Outcome
    decreases |file| - pos
  {
    if pos + 33 > |file| then Parsed(d)
    else if !ReadSep(file, pos, HP_START).Ok? then Failed
    else
      var len := BodyLen(tableType, HeaderAt(file, pos));
      if len + 5 >= 0x8000_0000 || len == 0 || pos + 33 + len > |file| then Failed
      else
        match ReadBody(tableType == PeriodicTable, file[pos + 33..pos + 33 + len], idx, Lists(d.jobs, d.intrs))
        case Ok(l, n) => ParseFrom(tableType, file, pos + 33 + len, n, Data(l.jobs, l.intrs, [HeaderAt(file, pos)]))
        case Refused => Failed
        case Undefined => Indeterminate
  }

  function FileAfter(tableType: TaskType, file: seq<Byte>, pos: nat, h: seq<Header>, body: Read<Lists>): Outcome {
    match body
    case Ok(l, n) => ParseFrom(tableType, file, pos, n, Data(l.jobs, l.intrs, h))
    case Refused => Failed
    case Undefined => Indeterminate
  }

  /** What the body still yields when section `state` is next. */
  ghost function BodyFrom(state: nat, periodic: bool, t: seq<Byte>, i: nat, l: Lists): Read<Lists>
    decreases END_STATE - state
  {
    if state <= JOB_TRAVERSAL_START then ReadBody(periodic, t, i, l)
    else if state == JOB_TRAVERSAL_FINISH then
      var (_, n) :- ReadSep(t, i, JOB_END);
      BodyFrom(INT_TRAVERSAL_START, periodic, t, n, l)
    else if state == INT_TRAVERSAL_START then
      if !periodic then BodyFrom(INT_TRAVERSAL_FINISH, periodic, t, i, l)
      else
        var (xs, n) :- IntrsBehindSep(t, i, l.intrs);
        BodyFrom(INT_TRAVERSAL_FINISH, periodic, t, n, l.(intrs := xs))
    else if state == INT_TRAVERSAL_FINISH then
      if !periodic then BodyFrom(HP_END_STATE, periodic, t, i, l)
      else
        var (_, n) :- ReadSep(t, i, INTERVAL_END);
        BodyFrom(HP_END_STATE, periodic, t, n, l)
    else
      var (_, n) :- ReadSep(t, i, HP_END);
      Ok(l, n)
  }

  /** The job section in front of the rest of the body. */
  lemma StageOf(state: nat, periodic: bool, t: seq<Byte>, i: nat, l: Lists)
    ensures state == JOB_TRAVERSAL_START ==>
      BodyFrom(state, periodic, t, i, l) ==
        var (js, n) :- JobsBehindSep(t, i, l.jobs);
        BodyFrom(JOB_TRAVERSAL_FINISH, periodic, t, n, l.(jobs := js))
  {
    hide ReadSep, ReadJobs, ReadIntrs;
    if state == JOB_TRAVERSAL_START {
      match JobsBehindSep(t, i, l.jobs)
      case Refused =>
      case Undefined =>
      case Ok(js, n) =>
        match ReadSep(t, n, JOB_END)
        case Refused =>
        case Undefined =>
        case Ok(_, n') =>
          IntrStage(periodic, t, n', Lists(js, l.intrs));
    }
  }

  lemma IntrStage(periodic: bool, t: seq<Byte>, i: nat, l: Lists)
    ensures BodyFrom(INT_TRAVERSAL_START, periodic, t, i, l) ==
      var (xs, n) :- if periodic then ReadIntrSection(t, i, l.intrs) else Ok(l.intrs, i);
      var (_, n') :- ReadSep(t, n, HP_END);
      Ok(l.(intrs := xs), n')
  {
    hide ReadSep, ReadJobs, ReadIntrs;
    if periodic {
      match IntrsBehindSep(t, i, l.intrs)
      case Refused =>
      case Undefined =>
      case Ok(xs, n) =>
        assert BodyFrom(INT_TRAVERSAL_FINISH, periodic, t, n, l.(intrs := xs)) ==
          var (_, n') :- ReadSep(t, n, INTERVAL_END);
          BodyFrom(HP_END_STATE, periodic, t, n', l.(intrs := xs));
    } else {
      assert BodyFrom(INT_TRAVERSAL_START, periodic, t, i, l) == BodyFrom(INT_TRAVERSAL_FINISH, periodic, t, i, l);
      assert BodyFrom(INT_TRAVERSAL_FINISH, periodic, t, i, l) == BodyFrom(HP_END_STATE, periodic, t, i, l);
    }
  }

  // ---- round trips ------------------------------------------------------------------------------

  lemma AtHeader(t: seq<Byte>, i: nat, h: Header)
    requires At(t, i, HeaderBytes(h))
    ensures i + 33 <= |t| && ReadSep(t, i, HP_START).Ok? && HeaderAt(t, i) == h
  {
    var f5 := Le32(h.slotQuantum) + Eol();
    var f4 := Field(h.slotCount) + f5;
    var f3 := Field(h.intrJobAsc) + f4;
    var f2 := Field(h.intCount) + f3;
    var f1 := Field(h.jobCount) + f2;
    hide At, Field, Le32, Sep, WordAt, ReadSep;
    AtSplit(t, i, Sep(HP_START), f1);
    AtSplit(t, i + 7, Field(h.jobCount), f2);
    AtSplit(t, i + 12, Field(h.intCount), f3);
    AtSplit(t, i + 17, Field(h.intrJobAsc), f4);
    AtSplit(t, i + 22, Field(h.slotCount), f5);
    AtSplit(t, i + 27, Le32(h.slotQuantum), Eol());
    SepIff(t, i, HP_START);
    AtField(t, i + 7, h.jobCount);
    AtField(t, i + 12, h.intCount);
    AtField(t, i + 17, h.intrJobAsc);
    AtField(t, i + 22, h.slotCount);
    AtWord(t, i + 27, h.slotQuantum);
    AtEol(t, i + 31);
  }

  /** The header counts what the body holds. */
  predicate Counts(tableType: TaskType, h: Header, js: seq<Job>, xs: seq<Intr>) {
    && h.jobCount == |js| && h.intrJobAsc == BondCount(js)
    && (if tableType == PeriodicTable then h.intCount == |xs| else xs == [])
  }

  /** With matching counts the reader's buffer is exactly the body, as long as 32 bits hold its length. */
  lemma BufferIsBody(tableType: TaskType, h: Header, js: seq<Job>, pads: seq<seq<Byte>>, xs: seq<Intr>)
    requires |pads| == |js| && AllWellFormed(js, pads) && Counts(tableType, h, js, xs)
    ensures BodyLen(tableType, h) == |BodyBytes(tableType == PeriodicTable, js, pads, xs)| % 0x1_0000_0000
  {
    BodyLength(tableType == PeriodicTable, js, pads, xs);
  }

  /** One hyperperiod from position pos on, as far as its body goes into the buffer. */
  lemma NextHyperperiod(tableType: TaskType, file: seq<Byte>, pos: nat, idx: nat, d: Data, h: Header, body: seq<Byte>)
    requires At(file, pos, HeaderBytes(h)) && At(file, pos + 33, body) && BodyLen(tableType, h) <= |body|
    ensures var len := BodyLen(tableType, h);
      ParseFrom(tableType, file, pos, idx, d) ==
        if len + 5 >= 0x8000_0000 || len == 0 then Failed
        else FileAfter(tableType, file, pos + 33 + len, [h],
                       ReadBody(tableType == PeriodicTable, body[..len], idx, Lists(d.jobs, d.intrs)))
  {
    hide At, ReadBody, ReadSep, BodyLen, HeaderBytes, HeaderAt;
    AtHeader(file, pos, h);
    AtPrefix(file, pos + 33, body, BodyLen(tableType, h));
  }

  lemma AtPrefix(t: seq<Byte>, i: nat, x: seq<Byte>, n: nat)
    requires At(t, i, x) && n <= |x|
    ensures i + |x| <= |t| && t[i..i + n] == x[..n]
  {
    assert t[i..i + |x|][..n] == t[i..i + n];
  }

  /** A body that goes into the buffer as a whole or in part is read only when it does as a whole, and
      then as the table it was written for. */
  lemma BodyInBuffer(tableType: TaskType, js: seq<Job>, pads: seq<seq<Byte>>, xs: seq<Intr>, len: nat)
    requires |pads| == |js| && AllWellFormed(js, pads) && (tableType != PeriodicTable ==> xs == [])
    requires len <= |BodyBytes(tableType == PeriodicTable, js, pads, xs)| && len < 0x8000_0000
    ensures var periodic := tableType == PeriodicTable;
      var body := BodyBytes(periodic, js, pads, xs);
      var r := ReadBody(periodic, body[..len], 0, Lists([], []));
      && (r.Ok? <==> Readable(periodic, js, xs) && len == |body|)
      && (r.Ok? ==> r == Ok(Lists(L.Reversed(js), L.Reversed(xs)), len))
  {
    hide ReadBody, BufferLength, Readable, BodyBytes, AllWellFormed;
    var periodic := tableType == PeriodicTable;
    var body := BodyBytes(periodic, js, pads, xs);
    AtWhole(body);
    assert body[..|body|] == body;
    if Readable(periodic, js, xs) && len == |body| {
      BodyWritten(body, periodic, js, pads, xs);
    }
    if ReadBody(periodic, body[..len], 0, Lists([], [])).Ok? {
      var js', pads', xs' := BodyRead(body[..len], 0, periodic, Lists([], []));
      assert body[0..len] == body[..len];
      AtInside(body, 0, len, BodyBytes(periodic, js', pads', xs'));
      NoIntervals(periodic, js', xs');
      BodyUnique(body, 0, periodic, js, pads, xs, js', pads', xs');
      BodyLength(periodic, js, pads, xs);
      BodyLength(periodic, js', pads', xs');
    }
  }

  lemma NoIntervals(periodic: bool, js: seq<Job>, xs: seq<Intr>)
    requires Readable(periodic, js, xs)
    ensures js != [] && (!periodic ==> xs == [])
  {
  }

  /** Reading a table file gives back a table if and only if the table that was written is readable and
      its body, with the margin of five bytes, is shorter than 2^31 bytes. It is the table that was
      written then, rows in reverse order: nothing is ever misread. Any other table is refused, unless a
      row without bonds is what the reader meets first. So it is whatever fills the path fields and
      whatever short tail follows. */
  lemma FileRoundTrip(tableType: TaskType, h: Header, js: seq<Job>, pads: seq<seq<Byte>>, xs: seq<Intr>, tail: seq<Byte>)
    requires |pads| == |js| && AllWellFormed(js, pads) && Counts(tableType, h, js, xs) && |tail| < 33
    ensures var body := BodyBytes(tableType == PeriodicTable, js, pads, xs);
      var r := ParseFrom(tableType, HeaderBytes(h) + body + tail, 0, 0, Data([], [], []));
      && (r.Parsed? <==> Readable(tableType == PeriodicTable, js, xs) && |body| + 5 < 0x8000_0000)
      && (r.Parsed? ==> r == Parsed(Data(L.Reversed(js), L.Reversed(xs), [h])))
      && (|body| < 0x1_0000_0000 ==> (r.Indeterminate? <==> MeetsUnsetRow(js) && |body| + 5 < 0x8000_0000))
  {
    hide ReadBody, BodyLen, Readable, HeaderBytes, BodyBytes, AllWellFormed, Counts, MeetsUnsetRow;
    var periodic := tableType == PeriodicTable;
    var body := BodyBytes(periodic, js, pads, xs);
    var file := HeaderBytes(h) + body + tail;
    BufferIsBody(tableType, h, js, pads, xs);
    HeaderInFront(file, h, body, tail);
    var len := BodyLen(tableType, h);
    NextHyperperiod(tableType, file, 0, 0, Data([], [], []), h, body);
    CountsFit(tableType, h, js, xs);
    BodyLength(periodic, js, pads, xs);
    LengthPositive(periodic, |xs|, |js|, BondCount(js));
    if len + 5 < 0x8000_0000 && len != 0 {
      BodyInBuffer(tableType, js, pads, xs, len);
      if len == |body| {
        assert body[..len] == body;
        AtWhole(body);
        BodyOutcome(body, periodic, js, pads, xs);
      }
    }
  }

  lemma CountsFit(tableType: TaskType, h: Header, js: seq<Job>, xs: seq<Intr>)
    requires Counts(tableType, h, js, xs)
    ensures tableType != PeriodicTable ==> xs == []
  {
  }

  lemma HeaderInFront(file: seq<Byte>, h: Header, body: seq<Byte>, rest: seq<Byte>)
    requires file == HeaderBytes(h) + body + rest
    ensures At(file, 0, HeaderBytes(h)) && At(file, 33, body) && At(file, 33 + |body|, rest)
    ensures |file| == 33 + |body| + |rest|
  {
    assert file[0..33] == HeaderBytes(h);
    assert file[33..33 + |body|] == body;
    assert file[33 + |body|..33 + |body| + |rest|] == rest;
  }

  lemma LengthPositive(periodic: bool, intrs: nat, jobs: nat, bonds: nat)
    ensures BufferLength(periodic, intrs, jobs, bonds) > 0
  {
  }

  lemma AtWhole(x: seq<Byte>)
    ensures At(x, 0, x)
  {
  }

  /** Conversely, whatever file with room for one hyperperiod is accepted, its body is the writing of
      the lists the reader returns, and these lists are readable. */
  lemma AcceptedFile(tableType: TaskType, file: seq<Byte>, d: Data)
    returns (js: seq<Job>, pads: seq<seq<Byte>>, xs: seq<Intr>)
    requires ParseFrom(tableType, file, 0, 0, Data([], [], [])) == Parsed(d)
    requires 33 <= |file| < 66 + BodyLen(tableType, HeaderAt(file, 0))
    ensures |pads| == |js| && AllWellFormed(js, pads) && Readable(tableType == PeriodicTable, js, xs)
    ensures d == Data(L.Reversed(js), L.Reversed(xs), [HeaderAt(file, 0)])
    ensures At(file, 33, BodyBytes(tableType == PeriodicTable, js, pads, xs))
    ensures |BodyBytes(tableType == PeriodicTable, js, pads, xs)| <= BodyLen(tableType, HeaderAt(file, 0))
  {
    hide ReadBody, ReadSep, BufferLength, Readable, BodyBytes, AllWellFormed;
    var len := BodyLen(tableType, HeaderAt(file, 0));
    var body := file[33..33 + len];
    js, pads, xs := BodyRead(body, 0, tableType == PeriodicTable, Lists([], []));
    assert L.Reversed(js) + [] == L.Reversed(js) && L.Reversed(xs) + [] == L.Reversed(xs);
    AtInside(file, 33, len, BodyBytes(tableType == PeriodicTable, js, pads, xs));
  }

  lemma AtInside(file: seq<Byte>, lo: nat, len: nat, x: seq<Byte>)
    requires lo + len <= |file| && At(file[lo..lo + len], 0, x)
    ensures At(file, lo, x) && |x| <= len
  {
    assert file[lo..lo + len][0..|x|] == file[lo..lo + |x|];
  }

  // ---- more than one hyperperiod ------------------------------------------------------------------

  lemma {:induction false} BondCountAppend(xs: seq<Job>, ys: seq<Job>)
    ensures BondCount(xs + ys) == BondCount(xs) + BondCount(ys)
    decreases |xs|
  {
    if xs == [] {
      assert xs + ys == ys;
    } else {
      assert (xs + ys)[1..] == xs[1..] + ys;
      BondCountAppend(xs[1..], ys);
    }
  }

  lemma {:induction false} BondCountReversed(js: seq<Job>)
    ensures BondCount(L.Reversed(js)) == BondCount(js) && |L.Reversed(js)| == |js|
    decreases |js|
  {
    if js != [] {
      BondCountReversed(js[1..]);
      BondCountAppend(L.Reversed(js[1..]), [js[0]]);
      assert [js[0]][1..] == [];
    }
  }

  lemma {:induction false} LengthReversed(xs: seq<Intr>)
    ensures |L.Reversed(xs)| == |xs|
    decreases |xs|
  {
    if xs != [] {
      LengthReversed(xs[1..]);
    }
  }

  /** The bytes that the rows of a table take up. */
  function RowBytes(jobs: seq<Job>, intrs: seq<Intr>): nat {
    290 * |jobs| + 10 * BondCount(jobs) + 31 * |intrs|
  }

  /** Reading a body moves the index on by the bytes of the rows it adds, and of the separators. */
  lemma BodyMovesIndex(periodic: bool, t: seq<Byte>, i: nat, acc: Lists)
    requires |t| < 0x8000_0000 && ReadBody(periodic, t, i, acc).Ok?
    ensures var r := ReadBody(periodic, t, i, acc);
      r.next == i + RowBytes(r.value.jobs, r.value.intrs) - RowBytes(acc.jobs, acc.intrs) + (if periodic then 35 else 21)
      && r.next <= |t|
  {
    hide ReadBody, Readable, BodyBytes, AllWellFormed, BondCount, At;
    var js, pads, xs := BodyRead(t, i, periodic, acc);
    NoIntervals(periodic, js, xs);
    BodyLength(periodic, js, pads, xs);
    BondCountReversed(js);
    BondCountAppend(L.Reversed(js), acc.jobs);
    LengthReversed(xs);
    AtWithin(t, i, BodyBytes(periodic, js, pads, xs));
  }

  /** In an accepted file the index never got behind the body of the last hyperperiod, although it counts
      the bytes of all of them. */
  lemma {:induction false} IndexWithinLast(tableType: TaskType, file: seq<Byte>, pos: nat, idx: nat, d: Data)
    requires pos + 33 <= |file| && ParseFrom(tableType, file, pos, idx, d).Parsed?
    ensures var d' := ParseFrom(tableType, file, pos, idx, d).data;
      idx + RowBytes(d'.jobs, d'.intrs) - RowBytes(d.jobs, d.intrs) + (if tableType == PeriodicTable then 35 else 21)
        <= |file| - pos - 33
    decreases |file| - pos
  {
    hide ReadBody, ReadSep, BodyLen, RowBytes, HeaderAt;
    var len := BodyLen(tableType, HeaderAt(file, pos));
    var body := file[pos + 33..pos + 33 + len];
    BodyMovesIndex(tableType == PeriodicTable, body, idx, Lists(d.jobs, d.intrs));
    var r := ReadBody(tableType == PeriodicTable, body, idx, Lists(d.jobs, d.intrs));
    if pos + 33 + len + 33 <= |file| {
      IndexWithinLast(tableType, file, pos + 33 + len, r.next, Data(r.value.jobs, r.value.intrs, [HeaderAt(file, pos)]));
    }
  }

  /** A written first hyperperiod, behind which an accepted file is read on with the index at its end. */
  lemma FirstIsRead(tableType: TaskType, file: seq<Byte>, h: Header, js: seq<Job>, pads: seq<seq<Byte>>, xs: seq<Intr>,
                    rest: seq<Byte>)
    requires |pads| == |js| && AllWellFormed(js, pads) && Counts(tableType, h, js, xs)
    requires file == HeaderBytes(h) + BodyBytes(tableType == PeriodicTable, js, pads, xs) + rest
    requires ParseFrom(tableType, file, 0, 0, Data([], [], [])).Parsed?
    ensures Readable(tableType == PeriodicTable, js, xs)
    ensures var n := |BodyBytes(tableType == PeriodicTable, js, pads, xs)|;
      ParseFrom(tableType, file, 0, 0, Data([], [], []))
        == ParseFrom(tableType, file, 33 + n, n, Data(L.Reversed(js), L.Reversed(xs), [h]))
  {
    hide ReadBody, BodyLen, Readable, HeaderBytes, BodyBytes, AllWellFormed, Counts, ParseFrom;
    var body := BodyBytes(tableType == PeriodicTable, js, pads, xs);
    BufferIsBody(tableType, h, js, pads, xs);
    HeaderInFront(file, h, body, rest);
    NextHyperperiod(tableType, file, 0, 0, Data([], [], []), h, body);
    CountsFit(tableType, h, js, xs);
    BodyInBuffer(tableType, js, pads, xs, BodyLen(tableType, h));
  }

  lemma RowBytesAdded(js: seq<Job>, xs: seq<Intr>, jobs: seq<Job>, intrs: seq<Intr>)
    ensures RowBytes(L.Reversed(js) + jobs, L.Reversed(xs) + intrs)
      == 290 * |js| + 10 * BondCount(js) + 31 * |xs| + RowBytes(jobs, intrs)
  {
    hide BondCount, L.Reversed;
    BondCountReversed(js);
    BondCountAppend(L.Reversed(js), jobs);
    LengthReversed(xs);
  }

  lemma BodyIsRows(tableType: TaskType, h: Header, js: seq<Job>, pads: seq<seq<Byte>>, xs: seq<Intr>)
    requires |pads| == |js| && AllWellFormed(js, pads) && Counts(tableType, h, js, xs)
    ensures |BodyBytes(tableType == PeriodicTable, js, pads, xs)|
      == 290 * |js| + 10 * BondCount(js) + 31 * |xs| + if tableType == PeriodicTable then 35 else 21
  {
    BodyLength(tableType == PeriodicTable, js, pads, xs);
  }

  /** The table definition has any number of hyperperiods in a file, but the index into the body is set
      once only: whatever two tables are written, they do not come back. */
  lemma SecondHyperperiodIsLost(tableType: TaskType, h1: Header, js1: seq<Job>, pads1: seq<seq<Byte>>, xs1: seq<Intr>,
                                h2: Header, js2: seq<Job>, pads2: seq<seq<Byte>>, xs2: seq<Intr>, tail: seq<Byte>)
    requires |pads1| == |js1| && AllWellFormed(js1, pads1) && Counts(tableType, h1, js1, xs1)
    requires |pads2| == |js2| && AllWellFormed(js2, pads2) && Counts(tableType, h2, js2, xs2) && |tail| < 33
    ensures var periodic := tableType == PeriodicTable;
      var file := HeaderBytes(h1) + BodyBytes(periodic, js1, pads1, xs1)
        + (HeaderBytes(h2) + BodyBytes(periodic, js2, pads2, xs2) + tail);
      var r := ParseFrom(tableType, file, 0, 0, Data([], [], []));
      r.Parsed? ==>
        r.data.jobs != L.Reversed(js2) + L.Reversed(js1) || r.data.intrs != L.Reversed(xs2) + L.Reversed(xs1)
  {
    hide *;
    var periodic := tableType == PeriodicTable;
    var b1, b2 := BodyBytes(periodic, js1, pads1, xs1), BodyBytes(periodic, js2, pads2, xs2);
    var rest := HeaderBytes(h2) + b2 + tail;
    var file := HeaderBytes(h1) + b1 + rest;
    HeaderInFront(file, h1, b1, rest);
    HeaderInFront(rest, h2, b2, tail);
    if ParseFrom(tableType, file, 0, 0, Data([], [], [])).Parsed? {
      FirstIsRead(tableType, file, h1, js1, pads1, xs1, rest);
      IndexWithinLast(tableType, file, 33 + |b1|, |b1|, Data(L.Reversed(js1), L.Reversed(xs1), [h1]));
      NoIntervals(periodic, js1, xs1);
      BodyIsRows(tableType, h1, js1, pads1, xs1);
      BodyIsRows(tableType, h2, js2, pads2, xs2);
      RowBytesAdded(js2, xs2, L.Reversed(js1), L.Reversed(xs1));
    }
  }

  // ---- what every parsed job satisfies ------------------------------------------------------------

  predicate AllCounted(js: seq<Job>) {
    forall k :: 0 <= k < |js| ==> |js[k].intr| == js[k].intrCount > 0
  }

  lemma RowCounted(t: seq<Byte>, i: nat)
    ensures var row := FromMinorId(t, i, BLANK_JOB); row.Ok? ==> |row.value.intr| == row.value.intrCount
  {
    hide ReadField, ReadBondArea;
  }

  lemma {:induction false} JobsCounted(t: seq<Byte>, i: nat, acc: seq<Job>)
    requires AllCounted(acc) && ReadJobs(t, i, acc).Ok?
    ensures AllCounted(ReadJobs(t, i, acc).value)
    decreases |t| - i
  {
    hide FromMinorId, ReadEol;
    var row := FromMinorId(t, i, BLANK_JOB);
    RowCounted(t, i);
    var n := ReadEol(t, row.next).next;
    if !LooksLikeSep(t, n) {
      JobsCounted(t, n, [row.value] + acc);
    }
  }

  lemma BodyCounted(periodic: bool, t: seq<Byte>, i: nat, acc: Lists)
    requires AllCounted(acc.jobs) && ReadBody(periodic, t, i, acc).Ok?
    ensures AllCounted(ReadBody(periodic, t, i, acc).value.jobs)
  {
    hide ReadSep, ReadJobs, ReadIntrSection;
    JobsCounted(t, ReadSep(t, i, JOB_START).next, acc.jobs);
  }

  /** In whatever file is accepted, over all its hyperperiods, every job has the bonds it announces. */
  lemma {:induction false} ParsedCounted(tableType: TaskType, file: seq<Byte>, pos: nat, idx: nat, d: Data)
    requires AllCounted(d.jobs) && ParseFrom(tableType, file, pos, idx, d).Parsed?
    ensures AllCounted(ParseFrom(tableType, file, pos, idx, d).data.jobs)
    decreases |file| - pos
  {
    hide ReadBody, ReadSep, BufferLength;
    if pos + 33 <= |file| {
      var len := BodyLen(tableType, HeaderAt(file, pos));
      var body := file[pos + 33..pos + 33 + len];
      var r := ReadBody(tableType == PeriodicTable, body, idx, Lists(d.jobs, d.intrs));
      BodyCounted(tableType == PeriodicTable, body, idx, Lists(d.jobs, d.intrs));
      ParsedCounted(tableType, file, pos + 33 + len, r.next, Data(r.value.jobs, r.value.intrs, [HeaderAt(file, pos)]));
    }
  }

  /** A table with one job that is bonded to interval 93. */
  const JOB_93 := Job(1, 1, 1, 1, 0, 1, [], [Bond(93, 0)])
  const PAD_93: seq<Byte> := seq(PATH_MAX, _ => PAD)
  const INTR_93 := Intr(93, 0, 0, 1, 0, 1)
  const HEADER_93 := Header(1, 1, 1, 1, 1)

  /** Such a table is well-formed, but not readable: the id starts like the end of the bonds. */
  lemma Job93NotReadable()
    ensures AllWellFormed([JOB_93], [PAD_93]) && Counts(PeriodicTable, HEADER_93, [JOB_93], [INTR_93])
    ensures !Readable(true, [JOB_93], [INTR_93]) && !MeetsUnsetRow([JOB_93])
    ensures |BodyBytes(true, [JOB_93], [PAD_93], [INTR_93])| == 366
  {
    hide BodyBytes;
    assert BondCount([JOB_93]) == 1 + BondCount([]);
    BodyLength(true, [JOB_93], [PAD_93], [INTR_93]);
    assert Unsigned(JOB_93.intr[0].intrId) % 256 == CLOSE;
    assert !CleanBonds(JOB_93.intr);
    assert !AllClean([JOB_93]) by {
      assert [JOB_93][0].intr == JOB_93.intr;
    }
  }

  /** So it is refused when it is written and read. */
  lemma Job93IsLost()
    ensures ParseFrom(PeriodicTable, HeaderBytes(HEADER_93) + BodyBytes(true, [JOB_93], [PAD_93], [INTR_93]) + [],
                      0, 0, Data([], [], [])) == Failed
  {
    hide *;
    Job93NotReadable();
    FileRoundTrip(PeriodicTable, HEADER_93, [JOB_93], [PAD_93], [INTR_93], []);
  }

  /** A table with one job that is bonded to no interval. */
  const JOB_FREE := Job(1, 1, 1, 1, 0, 0, [], [])
  const INTR_FREE := Intr(1, 0, 0, 1, 0, 0)
  const HEADER_FREE := Header(1, 1, 0, 1, 1)

  lemma JobFreeNotReadable()
    ensures AllWellFormed([JOB_FREE], [PAD_93]) && Counts(PeriodicTable, HEADER_FREE, [JOB_FREE], [INTR_FREE])
    ensures !Readable(true, [JOB_FREE], [INTR_FREE]) && MeetsUnsetRow([JOB_FREE])
    ensures |BodyBytes(true, [JOB_FREE], [PAD_93], [INTR_FREE])| == 356
  {
    hide BodyBytes;
    assert BondCount([JOB_FREE]) == 0 + BondCount([]);
    BodyLength(true, [JOB_FREE], [PAD_93], [INTR_FREE]);
    assert !AllClean([JOB_FREE]) by {
      assert [JOB_FREE][0].intr == [];
    }
  }

  /** It does not come back either: the row is accepted, but nothing ever sets its list of bonds. */
  lemma JobWithoutBondsIsLost()
    ensures AllWellFormed([JOB_FREE], [PAD_93]) && Counts(PeriodicTable, HEADER_FREE, [JOB_FREE], [INTR_FREE])
    ensures ParseFrom(PeriodicTable, HeaderBytes(HEADER_FREE) + BodyBytes(true, [JOB_FREE], [PAD_93], [INTR_FREE]) + [],
                      0, 0, Data([], [], [])) == Indeterminate
  {
    hide *;
    JobFreeNotReadable();
    FileRoundTrip(PeriodicTable, HEADER_FREE, [JOB_FREE], [PAD_93], [INTR_FREE], []);
  }
}
