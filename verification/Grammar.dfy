// What the table reader accepts, as a recursive-descent reading of the bytes.

module Grammar {
  import opened TableFormat

  /** Reading yields a value and the position behind it, or is refused, or its outcome depends on
      memory that was not written: behind the buffer, or a field of the result that is never set. */
  datatype Read<+T> = Ok(value: T, next: nat) | Refused | Undefined {
    predicate IsFailure() {
      !Ok?
    }

    function PropagateFailure<U>(): Read<U>
      requires IsFailure()
    {
      if Refused? then Refused else Undefined
    }

    function Extract(): (T, nat)
      requires !IsFailure()
    {
      (value, next)
    }
  }

  // ---- pieces -----------------------------------------------------------------------------

  function ReadWord(t: seq<Byte>, i: nat): Read<Word> {
    if i + 4 <= |t| then Ok(WordAt(t, i), i + 4) else Undefined
  }

  function ReadByte(t: seq<Byte>, i: nat, b: Byte): Read<()> {
    if i >= |t| then Undefined else if t[i] == b then Ok((), i + 1) else Refused
  }

  /** A word and the primary delimiter behind it. */
  function ReadField(t: seq<Byte>, i: nat): (r: Read<Word>)
    ensures r.Ok? <==> i + 5 <= |t| && t[i + 4] == COMMA
    ensures r.Ok? ==> r.next == i + 5 && r.value == WordAt(t, i)
  {
    var (w, n) :- ReadWord(t, i);
    var (_, n') :- ReadByte(t, n, COMMA);
    Ok(w, n')
  }

  function ReadEol(t: seq<Byte>, i: nat): (r: Read<()>)
    ensures r.Ok? <==> i + 2 <= |t| && t[i] == CR && t[i + 1] == LF
    ensures r.Ok? ==> r == Ok((), i + 2)
  {
    var (_, n) :- ReadByte(t, i, CR);
    ReadByte(t, n, LF)
  }

  /** A data separator, checked in the order delimiter, magic number, line end. */
  function ReadSep(t: seq<Byte>, i: nat, magic: Word): (r: Read<()>)
    ensures r.Ok? <==>
      i + 7 <= |t| && t[i] == BANG && WordAt(t, i + 1) == magic && t[i + 5] == CR && t[i + 6] == LF
    ensures r.Ok? ==> r == Ok((), i + 7)
  {
    var (_, n) :- ReadByte(t, i, BANG);
    var (w, n') :- ReadWord(t, n);
    if w != magic then Refused
    else if n' + 1 >= |t| then Undefined
    else if t[n' + 1] != LF || t[n'] != CR then Refused
    else Ok((), n' + 2)
  }

  /** The bytes at i look like a separator: '!' first, CR LF where a separator has them. */
  predicate LooksLikeSep(t: seq<Byte>, i: nat) {
    i + 6 < |t| && t[i] == BANG && t[i + 5] == CR && t[i + 6] == LF
  }

  /** The bytes needed to decide LooksLikeSep are there. */
  predicate CanPeek(t: seq<Byte>, i: nat) {
    i < |t| && (t[i] == BANG ==> i + 6 < |t|)
  }

  // ---- bonds --------------------------------------------------------------------------------

  function ReadBond(t: seq<Byte>, i: nat): (r: Read<Bond>)
    ensures r.Ok? ==> r.next == i + 10 <= |t|
  {
    var (id, n) :- ReadWord(t, i);
    var (_, n') :- ReadByte(t, n, COLON);
    var (est, n'') :- ReadField(t, n');
    Ok(Bond(Signed(id), est), n'')
  }

  /** Where the reader stops looking for more bonds, computed in 32 bits. */
  function BondLimit(count: Word): Word {
    (count * 10 + 2) % 0x1_0000_0000
  }

  /** Bonds from offset `halt` behind the opening bracket at i, up to a closing bracket or the limit. */
  function ReadBonds(t: seq<Byte>, i: nat, halt: nat, count: Word, acc: seq<Bond>): (r: Read<seq<Bond>>)
    requires halt == 1 + 10 * |acc|
    ensures r.Ok? ==> i < r.next <= |t| && |r.value| == count
    decreases |t| - i - halt
  {
    if i + halt >= |t| then Undefined
    else if t[i + halt] == CLOSE || halt >= BondLimit(count) then
      if |acc| == count then Ok(acc, i + 10 * |acc| + 2) else Refused
    else
      var (b, _) :- ReadBond(t, i + halt);
      ReadBonds(t, i, halt + 10, count, acc + [b])
  }

  function ReadBondArea(t: seq<Byte>, i: nat, count: Word): (r: Read<seq<Bond>>)
    ensures r.Ok? ==> i < r.next <= |t| && |r.value| == count
  {
    if i >= |t| then Undefined
    else if t[i] != OPEN then Refused
    else ReadBonds(t, i, 1, count, [])
  }

  // ---- job rows -----------------------------------------------------------------------------

  /** Length of the path that starts at i: up to the first pad byte, at most n bytes. */
  function PathLength(t: seq<Byte>, i: nat, n: nat): (r: nat)
    requires i + n <= |t|
    ensures r <= n
    decreases n
    ensures PAD !in t[i..i + r] && (r < n ==> t[i + r] == PAD)
  {
    if n == 0 || t[i] == PAD then 0
    else
      var r := 1 + PathLength(t, i + 1, n - 1);
      assert t[i..i + r] == [t[i]] + t[i + 1..i + r];
      r
  }

  function ReadPath(t: seq<Byte>, i: nat): Read<seq<Byte>> {
    if i + PATH_MAX > |t| then Undefined
    else Ok(t[i..i + PathLength(t, i, PATH_MAX)], i + PATH_MAX)
  }

  // A row is read field by field; each function reads from one field on.

  function FromMinorId(t: seq<Byte>, i: nat, j: Job): (r: Read<Job>)
    ensures r.Ok? ==> i < r.next <= |t|
  {
    var (w, n) :- ReadField(t, i);
    FromMajorId(t, n, j.(jid := w))
  }

  function FromMajorId(t: seq<Byte>, i: nat, j: Job): (r: Read<Job>)
    ensures r.Ok? ==> i < r.next <= |t|
  {
    var (w, n) :- ReadField(t, i);
    FromWcet(t, n, j.(majorId := w))
  }

  function FromWcet(t: seq<Byte>, i: nat, j: Job): (r: Read<Job>)
    ensures r.Ok? ==> i < r.next <= |t|
  {
    var (w, n) :- ReadField(t, i);
    FromDl(t, n, j.(wcet := w))
  }

  function FromDl(t: seq<Byte>, i: nat, j: Job): (r: Read<Job>)
    ensures r.Ok? ==> i < r.next <= |t|
  {
    var (w, n) :- ReadField(t, i);
    FromCoreId(t, n, j.(dl := w))
  }

  function FromCoreId(t: seq<Byte>, i: nat, j: Job): (r: Read<Job>)
    ensures r.Ok? ==> i < r.next <= |t|
  {
    var (w, n) :- ReadField(t, i);
    FromIntrCount(t, n, j.(coreid := w))
  }

  function FromIntrCount(t: seq<Byte>, i: nat, j: Job): (r: Read<Job>)
    ensures r.Ok? ==> i < r.next <= |t|
  {
    var (w, n) :- ReadField(t, i);
    FromBonds(t, n, j.(intrCount := w))
  }

  function FromBonds(t: seq<Byte>, i: nat, j: Job): (r: Read<Job>)
    ensures r.Ok? ==> i < r.next <= |t|
  {
    var (bonds, n) :- ReadBondArea(t, i, j.intrCount);
    var (_, n') :- ReadByte(t, n, COMMA);
    FromBinary(t, n', j.(intr := bonds))
  }

  function FromBinary(t: seq<Byte>, i: nat, j: Job): (r: Read<Job>)
    ensures r.Ok? ==> i < r.next <= |t|
  {
    var (p, n) :- ReadPath(t, i);
    Ok(j.(binary := p), n)
  }

  const BLANK_JOB := Job(0, 0, 0, 0, 0, 0, [], [])

  /** Job rows from i on, collected newest first, until the next row looks like a separator. */
  function ReadJobs(t: seq<Byte>, i: nat, acc: seq<Job>): (r: Read<seq<Job>>)
    ensures r.Ok? ==> i < r.next <= |t|
    decreases if i <= |t| then |t| - i else 0, 1
  {
    JobsAfter(t, FromMinorId(t, i, BLANK_JOB), acc)
  }

  /** The rest of the job section, behind a row that was read as `row`. A row's list of bonds starts out
      unset and is set by its first bond, so a row without bonds leaves it unset. */
  function JobsAfter(t: seq<Byte>, row: Read<Job>, acc: seq<Job>): (r: Read<seq<Job>>)
    requires row.Ok? ==> row.next <= |t|
    ensures r.Ok? ==> row.Ok? && row.next < r.next <= |t|
    decreases if row.Ok? then |t| - row.next else 0, 0
  {
    var (j, n) :- row;
    if j.intr == [] then Undefined
    else
      var (_, n') :- ReadEol(t, n);
      if !CanPeek(t, n') then Undefined
      else if LooksLikeSep(t, n') then Ok([j] + acc, n')
      else ReadJobs(t, n', [j] + acc)
  }

  // ---- interval rows --------------------------------------------------------------------------

  function FromIntrId(t: seq<Byte>, i: nat, x: Intr): (r: Read<Intr>)
    ensures r.Ok? ==> i < r.next <= |t|
  {
    var (w, n) :- ReadField(t, i);
    FromIntrCore(t, n, x.(intrId := w))
  }

  function FromIntrCore(t: seq<Byte>, i: nat, x: Intr): (r: Read<Intr>)
    ensures r.Ok? ==> i < r.next <= |t|
  {
    var (w, n) :- ReadField(t, i);
    FromStart(t, n, x.(core := w))
  }

  function FromStart(t: seq<Byte>, i: nat, x: Intr): (r: Read<Intr>)
    ensures r.Ok? ==> i < r.next <= |t|
  {
    var (w, n) :- ReadField(t, i);
    FromEnd(t, n, x.(start := w))
  }

  function FromEnd(t: seq<Byte>, i: nat, x: Intr): (r: Read<Intr>)
    ensures r.Ok? ==> i < r.next <= |t|
  {
    var (w, n) :- ReadField(t, i);
    FromSc(t, n, x.(end := w))
  }

  function FromSc(t: seq<Byte>, i: nat, x: Intr): (r: Read<Intr>)
    ensures r.Ok? ==> i < r.next <= |t|
  {
    var (w, n) :- ReadField(t, i);
    FromTaskCount(t, n, x.(sc := Signed(w)))
  }

  function FromTaskCount(t: seq<Byte>, i: nat, x: Intr): (r: Read<Intr>)
    ensures r.Ok? ==> i < r.next <= |t|
  {
    var (w, n) :- ReadWord(t, i);
    Ok(x.(noOfTsk := w), n)
  }

  const BLANK_INTR := Intr(0, 0, 0, 0, 0, 0)

  /** Interval rows from i on, collected newest first, until the next row looks like a separator. */
  function ReadIntrs(t: seq<Byte>, i: nat, acc: seq<Intr>): (r: Read<seq<Intr>>)
    ensures r.Ok? ==> i < r.next <= |t|
    decreases if i <= |t| then |t| - i else 0, 1
  {
    IntrsAfter(t, FromIntrId(t, i, BLANK_INTR), acc)
  }

  function IntrsAfter(t: seq<Byte>, row: Read<Intr>, acc: seq<Intr>): (r: Read<seq<Intr>>)
    requires row.Ok? ==> row.next <= |t|
    ensures r.Ok? ==> row.Ok? && row.next < r.next <= |t|
    decreases if row.Ok? then |t| - row.next else 0, 0
  {
    var (x, n) :- row;
    var (_, n') :- ReadEol(t, n);
    if !CanPeek(t, n') then Undefined
    else if LooksLikeSep(t, n') then Ok([x] + acc, n')
    else ReadIntrs(t, n', [x] + acc)
  }

  // ---- sections -------------------------------------------------------------------------------

  /** Jobs and intervals, newest first. */
  datatype Lists = Lists(jobs: seq<Job>, intrs: seq<Intr>)

  function ReadJobSection(t: seq<Byte>, i: nat, acc: seq<Job>): Read<seq<Job>> {
    var (_, n) :- ReadSep(t, i, JOB_START);
    var (js, n') :- ReadJobs(t, n, acc);
    var (_, n'') :- ReadSep(t, n', JOB_END);
    Ok(js, n'')
  }

  function ReadIntrSection(t: seq<Byte>, i: nat, acc: seq<Intr>): Read<seq<Intr>> {
    var (_, n) :- ReadSep(t, i, INTERVAL_START);
    var (xs, n') :- ReadIntrs(t, n, acc);
    var (_, n'') :- ReadSep(t, n', INTERVAL_END);
    Ok(xs, n'')
  }

  /** The body of one hyperperiod. */
  function ReadBody(periodic: bool, t: seq<Byte>, i: nat, acc: Lists): Read<Lists> {
    var (js, n) :- ReadJobSection(t, i, acc.jobs);
    var (xs, n') :- if periodic then ReadIntrSection(t, n, acc.intrs) else Ok(acc.intrs, n);
    var (_, n'') :- ReadSep(t, n', HP_END);
    Ok(Lists(js, xs), n'')
  }
}
