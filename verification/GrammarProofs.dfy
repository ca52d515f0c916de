// Reading undoes writing, and writing undoes reading: the language of the table reader.

module GrammarProofs {
  import opened TableFormat
  import opened Grammar
  import L = LocalList

  // ---- bonds --------------------------------------------------------------------------------

  /** No bond starts with the byte that closes the bond area. */
  predicate CleanBonds(bonds: seq<Bond>) {
    forall i :: 0 <= i < |bonds| ==> Unsigned(bonds[i].intrId) % 256 != CLOSE
  }

  lemma FieldIff(t: seq<Byte>, i: nat, w: Word)
    ensures ReadField(t, i) == Ok(w, i + 5) <==> At(t, i, Field(w))
  {
    AtField(t, i, w);
  }

  lemma AtBond(t: seq<Byte>, i: nat, b: Bond)
    ensures At(t, i, BondBytes(b)) <==>
      && i + 10 <= |t| && WordAt(t, i) == Unsigned(b.intrId) && t[i + 4] == COLON
      && WordAt(t, i + 5) == b.est && t[i + 9] == COMMA
  {
    AtSplit(t, i, Le32(Unsigned(b.intrId)) + [COLON], Field(b.est));
    AtSplit(t, i, Le32(Unsigned(b.intrId)), [COLON]);
    AtWord(t, i, Unsigned(b.intrId));
    AtOne(t, i + 4, COLON);
    AtField(t, i + 5, b.est);
  }

  lemma BondIff(t: seq<Byte>, i: nat, b: Bond)
    ensures ReadBond(t, i) == Ok(b, i + 10) <==> At(t, i, BondBytes(b))
  {
    AtBond(t, i, b);
    SignRoundTrip(b.intrId, if i + 4 <= |t| then WordAt(t, i) else 0);
  }

  lemma AtBonds(t: seq<Byte>, i: nat, bonds: seq<Bond>)
    requires bonds != []
    ensures At(t, i, BondsBytes(bonds)) <==> At(t, i, BondBytes(bonds[0])) && At(t, i + 10, BondsBytes(bonds[1..]))
  {
    AtSplit(t, i, BondBytes(bonds[0]), BondsBytes(bonds[1..]));
  }

  /** The first byte of a written bond is the low byte of its interval id. */
  lemma FirstByte(t: seq<Byte>, i: nat, w: Word)
    requires i + 4 <= |t| && WordAt(t, i) == w
    ensures t[i] == w % 256
  {
    var b1: int, b2: int, b3: int := t[i + 1], t[i + 2], t[i + 3];
    LowByte(t[i], b1 + 0x100 * b2 + 0x1_0000 * b3);
  }

  lemma LowByte(b: Byte, n: int)
    ensures (b + 256 * n) % 256 == b
  {
  }

  /** A bond at i, written or read, and the byte it starts with. */
  lemma BondStep(t: seq<Byte>, i: nat, b: Bond)
    ensures ReadBond(t, i) == Ok(b, i + 10) <==> At(t, i, BondBytes(b))
    ensures At(t, i, BondBytes(b)) ==> i + 10 <= |t| && t[i] == Unsigned(b.intrId) % 256
  {
    BondIff(t, i, b);
    AtBond(t, i, b);
    if At(t, i, BondBytes(b)) {
      FirstByte(t, i, Unsigned(b.intrId));
    }
  }

  lemma LimitIsTight(count: Word)
    requires count * 10 + 2 < 0x1_0000_0000
    ensures BondLimit(count) == count * 10 + 2
  {
  }

  lemma {:induction false} BondsWritten(t: seq<Byte>, i: nat, halt: nat, count: Word, acc: seq<Bond>, rest: seq<Bond>)
    requires halt == 1 + 10 * |acc| && |acc| + |rest| == count && count * 10 + 2 < 0x1_0000_0000
    requires At(t, i + halt, BondsBytes(rest)) && At(t, i + halt + 10 * |rest|, [CLOSE]) && CleanBonds(rest)
    ensures ReadBonds(t, i, halt, count, acc) == Ok(acc + rest, i + 10 * count + 2)
    decreases |rest|
  {
    hide At, ReadBond, BondLimit, BondBytes;
    LimitIsTight(count);
    if rest == [] {
      AtOne(t, i + halt, CLOSE);
      assert acc + rest == acc;
    } else {
      AtBonds(t, i + halt, rest);
      BondStep(t, i + halt, rest[0]);
      BondsWritten(t, i, halt + 10, count, acc + [rest[0]], rest[1..]);
      assert acc + [rest[0]] + rest[1..] == acc + rest;
    }
  }

  lemma {:induction false} BondsRead(t: seq<Byte>, i: nat, halt: nat, count: Word, acc: seq<Bond>)
    returns (rest: seq<Bond>)
    requires halt == 1 + 10 * |acc| && |t| < 0x8000_0000
    requires ReadBonds(t, i, halt, count, acc).Ok?
    ensures ReadBonds(t, i, halt, count, acc) == Ok(acc + rest, i + 10 * count + 2) && |acc| + |rest| == count
    ensures At(t, i + halt, BondsBytes(rest)) && At(t, i + halt + 10 * |rest|, [CLOSE]) && CleanBonds(rest)
    decreases |t| - i - halt
  {
    hide At, ReadBond, BondLimit, BondBytes;
    if t[i + halt] == CLOSE || halt >= BondLimit(count) {
      rest := [];
      LimitIsTight(count);
      assert acc + rest == acc;
      AtEmpty(t, i + halt);
      AtOne(t, i + halt, CLOSE);
    } else {
      var b := ReadBond(t, i + halt).value;
      var rest' := BondsRead(t, i, halt + 10, count, acc + [b]);
      rest := [b] + rest';
      assert rest[1..] == rest';
      assert acc + [b] + rest' == acc + rest;
      AtBonds(t, i + halt, rest);
      BondStep(t, i + halt, b);
    }
  }

  // ---- job rows -------------------------------------------------------------------------------

  /** Where the parts of a job row stand. */
  lemma AtJob(t: seq<Byte>, i: nat, j: Job, pad: seq<Byte>)
    ensures At(t, i, JobBytes(j, pad)) <==>
      && At(t, i, Field(j.jid)) && At(t, i + 5, Field(j.majorId)) && At(t, i + 10, Field(j.wcet))
      && At(t, i + 15, Field(j.dl)) && At(t, i + 20, Field(j.coreid)) && At(t, i + 25, Field(j.intrCount))
      && At(t, i + 30, [OPEN]) && At(t, i + 31, BondsBytes(j.intr))
      && At(t, i + 31 + 10 * |j.intr|, [CLOSE]) && At(t, i + 32 + 10 * |j.intr|, [COMMA])
      && At(t, i + 33 + 10 * |j.intr|, j.binary + pad)
      && At(t, i + 33 + 10 * |j.intr| + |j.binary| + |pad|, Eol())
  {
    hide At;
    var k := 10 * |j.intr|;
    AtSplit(t, i, JobHead(j), BondsBytes(j.intr) + ([CLOSE, COMMA] + (j.binary + pad + Eol())));
    AtSplit(t, i + 31, BondsBytes(j.intr), [CLOSE, COMMA] + (j.binary + pad + Eol()));
    AtSplit(t, i + 31 + k, [CLOSE, COMMA], j.binary + pad + Eol());
    assert [CLOSE, COMMA] == [CLOSE] + [COMMA];
    AtSplit(t, i + 31 + k, [CLOSE], [COMMA]);
    AtSplit(t, i + 33 + k, j.binary + pad, Eol());
    AtHead(t, i, j);
  }

  lemma AtHead(t: seq<Byte>, i: nat, j: Job)
    ensures At(t, i, JobHead(j)) <==>
      && At(t, i, Field(j.jid)) && At(t, i + 5, Field(j.majorId)) && At(t, i + 10, Field(j.wcet))
      && At(t, i + 15, Field(j.dl)) && At(t, i + 20, Field(j.coreid)) && At(t, i + 25, Field(j.intrCount))
      && At(t, i + 30, [OPEN])
  {
    hide At, Field;
    var f5 := Field(j.intrCount) + [OPEN];
    var f4 := Field(j.coreid) + f5;
    var f3 := Field(j.dl) + f4;
    var f2 := Field(j.wcet) + f3;
    var f1 := Field(j.majorId) + f2;
    AtSplit(t, i, Field(j.jid), f1);
    AtSplit(t, i + 5, Field(j.majorId), f2);
    AtSplit(t, i + 10, Field(j.wcet), f3);
    AtSplit(t, i + 15, Field(j.dl), f4);
    AtSplit(t, i + 20, Field(j.coreid), f5);
    AtSplit(t, i + 25, Field(j.intrCount), [OPEN]);
  }

  lemma {:induction false} PathLengthOf(t: seq<Byte>, i: nat, n: nat, p: nat)
    requires i + n <= |t| && p <= n && PAD !in t[i..i + p] && (p < n ==> t[i + p] == PAD)
    ensures PathLength(t, i, n) == p
    decreases n
  {
    if p > 0 {
      assert t[i] in t[i..i + p];
      assert t[i + 1..i + p] == t[i..i + p][1..];
      PathLengthOf(t, i + 1, n - 1, p - 1);
    }
  }

  lemma AtSlice(t: seq<Byte>, i: nat, x: seq<Byte>)
    requires At(t, i, x)
    ensures i + |x| <= |t| && t[i..i + |x|] == x && (x != [] ==> t[i] == x[0])
  {
    if x != [] {
      assert t[i] == t[i..i + |x|][0];
    }
  }

  lemma PathWritten(t: seq<Byte>, i: nat, path: seq<Byte>, pad: seq<Byte>)
    requires PAD !in path && |path| + |pad| == PATH_MAX && IsPadding(pad) && At(t, i, path + pad)
    ensures ReadPath(t, i) == Ok(path, i + PATH_MAX)
  {
    hide At, PathLength;
    AtSplit(t, i, path, pad);
    AtWithin(t, i + |path|, pad);
    AtSlice(t, i, path);
    AtSlice(t, i + |path|, pad);
    PathLengthOf(t, i, PATH_MAX, |path|);
  }

  lemma PathRead(t: seq<Byte>, i: nat) returns (pad: seq<Byte>)
    requires ReadPath(t, i).Ok?
    ensures var path := ReadPath(t, i).value;
      PAD !in path && |path| + |pad| == PATH_MAX && IsPadding(pad) && At(t, i, path + pad)
  {
    var r := PathLength(t, i, PATH_MAX);
    pad := t[i + r..i + PATH_MAX];
    assert t[i..i + PATH_MAX] == t[i..i + r] + pad;
  }

  /** The row that a job row with everything but its path has become, read on from there. */
  lemma BondAreaWritten(t: seq<Byte>, i: nat, j: Job)
    requires j.intrCount == |j.intr| && CleanBonds(j.intr) && |t| < 0x8000_0000
    requires At(t, i, [OPEN]) && At(t, i + 1, BondsBytes(j.intr)) && At(t, i + 1 + 10 * |j.intr|, [CLOSE])
    ensures ReadBondArea(t, i, j.intrCount) == Ok(j.intr, i + 10 * |j.intr| + 2)
  {
    AtOne(t, i, OPEN);
    BondsWritten(t, i, 1, j.intrCount, [], j.intr);
    assert [] + j.intr == j.intr;
  }

  lemma BondAreaRead(t: seq<Byte>, i: nat, count: Word) returns (bonds: seq<Bond>)
    requires |t| < 0x8000_0000 && ReadBondArea(t, i, count).Ok?
    ensures ReadBondArea(t, i, count) == Ok(bonds, i + 10 * |bonds| + 2) && |bonds| == count && CleanBonds(bonds)
    ensures At(t, i, [OPEN]) && At(t, i + 1, BondsBytes(bonds)) && At(t, i + 1 + 10 * |bonds|, [CLOSE])
  {
    bonds := BondsRead(t, i, 1, count, []);
    assert [] + bonds == bonds;
    AtOne(t, i, OPEN);
  }

  /** A written job row is read back, up to its line end. */
  lemma JobWritten(t: seq<Byte>, i: nat, j: Job, pad: seq<Byte>)
    requires |t| < 0x8000_0000 && WellFormed(j, pad) && CleanBonds(j.intr) && At(t, i, JobBytes(j, pad))
    ensures FromMinorId(t, i, BLANK_JOB) == Ok(j, i + |JobBytes(j, pad)| - 2)
    ensures ReadEol(t, i + |JobBytes(j, pad)| - 2) == Ok((), i + |JobBytes(j, pad)|)
  {
    hide At, ReadField, ReadBondArea, ReadPath, Field, ReadEol, BondsBytes, JobBytes, Eol, WordAt, CleanBonds, IsPadding,
      JobHead;
    AtJob(t, i, j, pad);
    var k := 10 * |j.intr|;
    FieldIff(t, i, j.jid);
    FieldIff(t, i + 5, j.majorId);
    FieldIff(t, i + 10, j.wcet);
    FieldIff(t, i + 15, j.dl);
    FieldIff(t, i + 20, j.coreid);
    FieldIff(t, i + 25, j.intrCount);
    BondAreaWritten(t, i + 30, j);
    AtOne(t, i + 32 + k, COMMA);
    PathWritten(t, i + 33 + k, j.binary, pad);
    AtEol(t, i + 33 + k + PATH_MAX);
  }

  /** A job row that was read had been written, up to what fills its path field. */
  lemma JobRead(t: seq<Byte>, i: nat) returns (j: Job, pad: seq<Byte>)
    requires |t| < 0x8000_0000 && FromMinorId(t, i, BLANK_JOB).Ok?
    requires ReadEol(t, FromMinorId(t, i, BLANK_JOB).next).Ok?
    ensures FromMinorId(t, i, BLANK_JOB) == Ok(j, i + |JobBytes(j, pad)| - 2)
    ensures WellFormed(j, pad) && CleanBonds(j.intr) && At(t, i, JobBytes(j, pad))
  {
    hide At, ReadField, ReadBondArea, ReadPath, Field, ReadEol, BondsBytes, JobBytes, Eol, WordAt, CleanBonds, IsPadding,
      JobHead;
    j := FromMinorId(t, i, BLANK_JOB).value;
    FieldIff(t, i, j.jid);
    FieldIff(t, i + 5, j.majorId);
    FieldIff(t, i + 10, j.wcet);
    FieldIff(t, i + 15, j.dl);
    FieldIff(t, i + 20, j.coreid);
    FieldIff(t, i + 25, j.intrCount);
    var bonds := BondAreaRead(t, i + 30, j.intrCount);
    var k := 10 * |bonds|;
    AtOne(t, i + 32 + k, COMMA);
    pad := PathRead(t, i + 33 + k);
    PathSize(t, i + 33 + k);
    AtEol(t, i + 33 + k + PATH_MAX);
    AtJob(t, i, j, pad);
  }

  lemma PathSize(t: seq<Byte>, i: nat)
    requires ReadPath(t, i).Ok?
    ensures ReadPath(t, i).next == i + PATH_MAX
  {
  }

  /** A job row that the reader takes for a data separator. */
  predicate JobLooksLikeSep(j: Job) {
    j.jid % 256 == BANG && j.majorId % 256 == CR && j.majorId / 256 % 256 == LF
  }

  lemma TwoLowBytes(t: seq<Byte>, i: nat, w: Word)
    requires i + 4 <= |t| && WordAt(t, i) == w
    ensures t[i] == w % 256 && t[i + 1] == w / 256 % 256
  {
    WordRoundTrip(w);
    BytesRoundTrip(t[i], t[i + 1], t[i + 2], t[i + 3]);
    assert Le32(w)[1] == [t[i], t[i + 1], t[i + 2], t[i + 3]][1];
  }

  lemma JobRowSep(t: seq<Byte>, i: nat, j: Job, pad: seq<Byte>)
    requires At(t, i, JobBytes(j, pad))
    ensures CanPeek(t, i) && (LooksLikeSep(t, i) <==> JobLooksLikeSep(j))
  {
    AtJob(t, i, j, pad);
    AtField(t, i, j.jid);
    AtField(t, i + 5, j.majorId);
    FirstByte(t, i, j.jid);
    TwoLowBytes(t, i + 5, j.majorId);
  }

  /** No row behind the first one is mistaken for a separator. */
  predicate LaterRowsClear(js: seq<Job>) {
    forall k :: 0 < k < |js| ==> !JobLooksLikeSep(js[k])
  }

  predicate AllClean(js: seq<Job>) {
    forall k :: 0 <= k < |js| ==> js[k].intr != [] && CleanBonds(js[k].intr)
  }

  lemma AtJobs(t: seq<Byte>, i: nat, js: seq<Job>, pads: seq<seq<Byte>>)
    requires |pads| == |js| > 0
    ensures At(t, i, JobsBytes(js, pads)) <==>
      At(t, i, JobBytes(js[0], pads[0])) && At(t, i + |JobBytes(js[0], pads[0])|, JobsBytes(js[1..], pads[1..]))
    ensures |JobsBytes(js, pads)| == |JobBytes(js[0], pads[0])| + |JobsBytes(js[1..], pads[1..])|
  {
    AtSplit(t, i, JobBytes(js[0], pads[0]), JobsBytes(js[1..], pads[1..]));
  }

  lemma ReversedCons<X>(x: X, xs: seq<X>, acc: seq<X>)
    ensures L.Reversed([x] + xs) + acc == L.Reversed(xs) + ([x] + acc)
  {
    assert ([x] + xs)[1..] == xs;
    assert L.Reversed(xs) + [x] + acc == L.Reversed(xs) + ([x] + acc);
  }

  lemma {:induction false} JobsWritten(t: seq<Byte>, i: nat, js: seq<Job>, pads: seq<seq<Byte>>, acc: seq<Job>)
    requires |t| < 0x8000_0000 && |pads| == |js| > 0 && AllWellFormed(js, pads) && AllClean(js) && LaterRowsClear(js)
    requires At(t, i, JobsBytes(js, pads))
    requires var end := i + |JobsBytes(js, pads)|; CanPeek(t, end) && LooksLikeSep(t, end)
    ensures ReadJobs(t, i, acc) == Ok(L.Reversed(js) + acc, i + |JobsBytes(js, pads)|)
    decreases |js|
  {
    hide At, FromMinorId, ReadEol, CanPeek, LooksLikeSep, JobBytes, CleanBonds, WellFormed, JobLooksLikeSep;
    AtJobs(t, i, js, pads);
    assert WellFormed(js[0], pads[0]);
    JobWritten(t, i, js[0], pads[0]);
    ReversedCons(js[0], js[1..], acc);
    assert [js[0]] + js[1..] == js;
    var n := i + |JobBytes(js[0], pads[0])|;
    if |js| == 1 {
      assert js[1..] == [] && JobsBytes(js[1..], pads[1..]) == [];
      assert L.Reversed(js[1..]) + ([js[0]] + acc) == [js[0]] + acc;
    } else {
      AtJobs(t, n, js[1..], pads[1..]);
      JobRowSep(t, n, js[1], pads[1]);
      JobsWritten(t, n, js[1..], pads[1..], [js[0]] + acc);
    }
  }

  lemma {:induction false} JobsRead(t: seq<Byte>, i: nat, acc: seq<Job>) returns (js: seq<Job>, pads: seq<seq<Byte>>)
    requires |t| < 0x8000_0000 && ReadJobs(t, i, acc).Ok?
    ensures |pads| == |js| > 0 && AllWellFormed(js, pads) && AllClean(js) && LaterRowsClear(js)
    ensures At(t, i, JobsBytes(js, pads))
    ensures ReadJobs(t, i, acc) == Ok(L.Reversed(js) + acc, i + |JobsBytes(js, pads)|)
    decreases |t| - i
  {
    hide At, FromMinorId, ReadEol, CanPeek, LooksLikeSep, JobBytes, CleanBonds, WellFormed, JobLooksLikeSep;
    var j, pad := JobRead(t, i);
    var n := i + |JobBytes(j, pad)|;
    EolNext(t, n - 2);
    if LooksLikeSep(t, n) {
      js, pads := [j], [pad];
      ReversedCons(j, [], acc);
      assert L.Reversed<Job>([]) + ([j] + acc) == [j] + acc;
      assert js[1..] == [] && pads[1..] == [] && js == [j] + [];
      assert JobsBytes(js[1..], pads[1..]) == [];
      AtJobs(t, i, js, pads);
      AtWithin(t, i, JobBytes(j, pad));
      AtEmpty(t, n);
    } else {
      var js', pads' := JobsRead(t, n, [j] + acc);
      js, pads := [j] + js', [pad] + pads';
      assert js[1..] == js' && pads[1..] == pads';
      AtJobs(t, i, js, pads);
      AtJobs(t, n, js', pads');
      JobRowSep(t, n, js'[0], pads'[0]);
      ReversedCons(j, js', acc);
      forall k | 0 < k < |js| ensures !JobLooksLikeSep(js[k]) {
        if k > 1 {
          assert !JobLooksLikeSep(js'[k - 1]);
        }
      }
      assert forall k :: 0 <= k < |js| ==> WellFormed(js[k], pads[k]) && js[k].intr != [] && CleanBonds(js[k].intr);
    }
  }

  lemma EolNext(t: seq<Byte>, i: nat)
    requires ReadEol(t, i).Ok?
    ensures ReadEol(t, i) == Ok((), i + 2)
  {
  }

  lemma AtWithin(t: seq<Byte>, i: nat, x: seq<Byte>)
    requires At(t, i, x)
    ensures i + |x| <= |t|
  {
  }

  // ---- interval rows ----------------------------------------------------------------------------

  lemma AtIntr(t: seq<Byte>, i: nat, x: Intr)
    ensures At(t, i, IntrBytes(x)) <==>
      && At(t, i, Field(x.intrId)) && At(t, i + 5, Field(x.core)) && At(t, i + 10, Field(x.start))
      && At(t, i + 15, Field(x.end)) && At(t, i + 20, Field(Unsigned(x.sc))) && At(t, i + 25, Le32(x.noOfTsk))
      && At(t, i + 29, Eol())
  {
    hide At, Field, Le32;
    var f5 := Le32(x.noOfTsk) + Eol();
    var f4 := Field(Unsigned(x.sc)) + f5;
    var f3 := Field(x.end) + f4;
    var f2 := Field(x.start) + f3;
    var f1 := Field(x.core) + f2;
    AtSplit(t, i, Field(x.intrId), f1);
    AtSplit(t, i + 5, Field(x.core), f2);
    AtSplit(t, i + 10, Field(x.start), f3);
    AtSplit(t, i + 15, Field(x.end), f4);
    AtSplit(t, i + 20, Field(Unsigned(x.sc)), f5);
    AtSplit(t, i + 25, Le32(x.noOfTsk), Eol());
  }

  lemma WordIff(t: seq<Byte>, i: nat, w: Word)
    ensures ReadWord(t, i) == Ok(w, i + 4) <==> At(t, i, Le32(w))
  {
    AtWord(t, i, w);
  }

  /** An interval row reads as x exactly when it was written for x. */
  lemma IntrIff(t: seq<Byte>, i: nat, x: Intr)
    ensures At(t, i, IntrBytes(x)) <==>
      FromIntrId(t, i, BLANK_INTR) == Ok(x, i + 29) && ReadEol(t, i + 29) == Ok((), i + 31)
  {
    hide At, ReadField, ReadWord, Field, Le32;
    AtIntr(t, i, x);
    FieldIff(t, i, x.intrId);
    FieldIff(t, i + 5, x.core);
    FieldIff(t, i + 10, x.start);
    FieldIff(t, i + 15, x.end);
    FieldIff(t, i + 20, Unsigned(x.sc));
    WordIff(t, i + 25, x.noOfTsk);
    AtEol(t, i + 29);
    SignRoundTrip(x.sc, if ReadField(t, i + 20).Ok? then ReadField(t, i + 20).value else 0);
    ReadWordNext(t, i + 25);
  }

  lemma ReadWordNext(t: seq<Byte>, i: nat)
    ensures ReadWord(t, i).Ok? ==> ReadWord(t, i).next == i + 4
  {
  }

  lemma IntrNext(t: seq<Byte>, i: nat)
    requires FromIntrId(t, i, BLANK_INTR).Ok?
    ensures FromIntrId(t, i, BLANK_INTR).next == i + 29
  {
    hide WordAt;
  }

  predicate IntrLooksLikeSep(x: Intr) {
    x.intrId % 256 == BANG && x.core % 256 == CR && x.core / 256 % 256 == LF
  }

  lemma IntrRowSep(t: seq<Byte>, i: nat, x: Intr)
    requires At(t, i, IntrBytes(x))
    ensures CanPeek(t, i) && (LooksLikeSep(t, i) <==> IntrLooksLikeSep(x))
  {
    AtIntr(t, i, x);
    AtField(t, i, x.intrId);
    AtField(t, i + 5, x.core);
    FirstByte(t, i, x.intrId);
    TwoLowBytes(t, i + 5, x.core);
  }

  predicate LaterIntrsClear(xs: seq<Intr>) {
    forall k :: 0 < k < |xs| ==> !IntrLooksLikeSep(xs[k])
  }

  lemma AtIntrs(t: seq<Byte>, i: nat, xs: seq<Intr>)
    requires xs != []
    ensures At(t, i, IntrsBytes(xs)) <==> At(t, i, IntrBytes(xs[0])) && At(t, i + 31, IntrsBytes(xs[1..]))
  {
    AtSplit(t, i, IntrBytes(xs[0]), IntrsBytes(xs[1..]));
  }

  lemma {:induction false} IntrsWritten(t: seq<Byte>, i: nat, xs: seq<Intr>, acc: seq<Intr>)
    requires xs != [] && LaterIntrsClear(xs) && At(t, i, IntrsBytes(xs))
    requires var end := i + 31 * |xs|; CanPeek(t, end) && LooksLikeSep(t, end)
    ensures ReadIntrs(t, i, acc) == Ok(L.Reversed(xs) + acc, i + 31 * |xs|)
    decreases |xs|
  {
    hide At, FromIntrId, ReadEol, CanPeek, LooksLikeSep, IntrBytes, IntrLooksLikeSep;
    AtIntrs(t, i, xs);
    IntrIff(t, i, xs[0]);
    ReversedCons(xs[0], xs[1..], acc);
    assert [xs[0]] + xs[1..] == xs;
    if |xs| == 1 {
      assert xs[1..] == [];
      assert L.Reversed(xs[1..]) + ([xs[0]] + acc) == [xs[0]] + acc;
    } else {
      AtIntrs(t, i + 31, xs[1..]);
      IntrRowSep(t, i + 31, xs[1]);
      IntrsWritten(t, i + 31, xs[1..], [xs[0]] + acc);
    }
  }

  lemma {:induction false} IntrsRead(t: seq<Byte>, i: nat, acc: seq<Intr>) returns (xs: seq<Intr>)
    requires ReadIntrs(t, i, acc).Ok?
    ensures xs != [] && LaterIntrsClear(xs) && At(t, i, IntrsBytes(xs))
    ensures ReadIntrs(t, i, acc) == Ok(L.Reversed(xs) + acc, i + 31 * |xs|)
    decreases |t| - i
  {
    hide At, FromIntrId, ReadEol, CanPeek, LooksLikeSep, IntrBytes, IntrLooksLikeSep;
    var x := FromIntrId(t, i, BLANK_INTR).value;
    IntrNext(t, i);
    EolNext(t, i + 29);
    IntrIff(t, i, x);
    if LooksLikeSep(t, i + 31) {
      xs := [x];
      ReversedCons(x, [], acc);
      assert L.Reversed<Intr>([]) + ([x] + acc) == [x] + acc;
      assert xs[1..] == [] && xs == [x] + [];
      AtIntrs(t, i, xs);
      AtWithin(t, i, IntrBytes(x));
      AtEmpty(t, i + 31);
    } else {
      var xs' := IntrsRead(t, i + 31, [x] + acc);
      xs := [x] + xs';
      assert xs[1..] == xs';
      AtIntrs(t, i, xs);
      AtIntrs(t, i + 31, xs');
      IntrRowSep(t, i + 31, xs'[0]);
      ReversedCons(x, xs', acc);
      forall k | 0 < k < |xs| ensures !IntrLooksLikeSep(xs[k]) {
        if k > 1 {
          assert !IntrLooksLikeSep(xs'[k - 1]);
        }
      }
    }
  }

  // ---- the body -----------------------------------------------------------------------------------

  lemma SepIff(t: seq<Byte>, i: nat, magic: Word)
    ensures ReadSep(t, i, magic) == Ok((), i + 7) <==> At(t, i, Sep(magic))
    ensures ReadSep(t, i, magic).Ok? ==> ReadSep(t, i, magic) == Ok((), i + 7)
    ensures At(t, i, Sep(magic)) ==> CanPeek(t, i) && LooksLikeSep(t, i)
  {
    AtSep(t, i, magic);
  }

  /** The tables the reader can give back: something in every section, no bond that starts like the
      end of the bonds, no later row that starts like a separator. */
  predicate Readable(periodic: bool, js: seq<Job>, xs: seq<Intr>) {
    && js != [] && AllClean(js) && LaterRowsClear(js)
    && (if periodic then xs != [] && LaterIntrsClear(xs) else xs == [])
  }

  lemma AtBody(t: seq<Byte>, i: nat, periodic: bool, js: seq<Job>, pads: seq<seq<Byte>>, xs: seq<Intr>)
    requires |pads| == |js|
    ensures var e := i + 7 + |JobsBytes(js, pads)|; var n := if periodic then 31 * |xs| + 14 else 0;
      At(t, i, BodyBytes(periodic, js, pads, xs)) <==>
        && At(t, i, Sep(JOB_START)) && At(t, i + 7, JobsBytes(js, pads)) && At(t, e, Sep(JOB_END))
        && (periodic ==> At(t, e + 7, Sep(INTERVAL_START)) && At(t, e + 14, IntrsBytes(xs))
                         && At(t, e + 14 + 31 * |xs|, Sep(INTERVAL_END)))
        && At(t, e + 7 + n, Sep(HP_END))
  {
    hide At, Sep, JobsBytes, IntrsBytes;
    var e := i + 7 + |JobsBytes(js, pads)|;
    var ints := if periodic then Sep(INTERVAL_START) + (IntrsBytes(xs) + Sep(INTERVAL_END)) else [];
    AtSplit(t, i, Sep(JOB_START), JobsBytes(js, pads) + (Sep(JOB_END) + (ints + Sep(HP_END))));
    AtSplit(t, i + 7, JobsBytes(js, pads), Sep(JOB_END) + (ints + Sep(HP_END)));
    AtSplit(t, e, Sep(JOB_END), ints + Sep(HP_END));
    AtSplit(t, e + 7, ints, Sep(HP_END));
    if periodic {
      AtSplit(t, e + 7, Sep(INTERVAL_START), IntrsBytes(xs) + Sep(INTERVAL_END));
      AtSplit(t, e + 14, IntrsBytes(xs), Sep(INTERVAL_END));
    } else {
      if At(t, e + 7, Sep(HP_END)) {
        AtWithin(t, e + 7, Sep(HP_END));
        AtEmpty(t, e + 7);
      }
    }
  }

  /** The rest of the job section, from the first row on. */
  function JobsToEnd(t: seq<Byte>, i: nat, acc: seq<Job>): Read<seq<Job>> {
    var (js, n) :- ReadJobs(t, i, acc);
    var (_, n') :- ReadSep(t, n, JOB_END);
    Ok(js, n')
  }

  /** The rest of the interval section. */
  function IntrsToEnd(t: seq<Byte>, i: nat, acc: seq<Intr>): Read<seq<Intr>> {
    var (xs, n) :- ReadIntrs(t, i, acc);
    var (_, n') :- ReadSep(t, n, INTERVAL_END);
    Ok(xs, n')
  }

  /** Behind its separator, a section is its rows and their end. */
  lemma SectionIsRows(t: seq<Byte>, i: nat)
    ensures ReadSep(t, i, JOB_START) == Ok((), i + 7) ==> ReadJobSection(t, i, []) == JobsToEnd(t, i + 7, [])
    ensures ReadSep(t, i, INTERVAL_START) == Ok((), i + 7) ==> ReadIntrSection(t, i, []) == IntrsToEnd(t, i + 7, [])
  {
    hide ReadSep, ReadJobs, ReadIntrs;
  }

  lemma RowsThenEnd(t: seq<Byte>, i: nat, n: nat)
    ensures ReadJobs(t, i, []).Ok? && ReadJobs(t, i, []).next == n && ReadSep(t, n, JOB_END) == Ok((), n + 7) ==>
      JobsToEnd(t, i, []) == Ok(ReadJobs(t, i, []).value, n + 7)
    ensures ReadIntrs(t, i, []).Ok? && ReadIntrs(t, i, []).next == n && ReadSep(t, n, INTERVAL_END) == Ok((), n + 7) ==>
      IntrsToEnd(t, i, []) == Ok(ReadIntrs(t, i, []).value, n + 7)
  {
    hide ReadSep, ReadJobs, ReadIntrs;
  }

  lemma JobSectionWritten(t: seq<Byte>, js: seq<Job>, pads: seq<seq<Byte>>)
    requires |t| < 0x8000_0000 && |pads| == |js| && AllWellFormed(js, pads)
    requires js != [] && AllClean(js) && LaterRowsClear(js)
    requires At(t, 0, Sep(JOB_START)) && At(t, 7, JobsBytes(js, pads)) && At(t, 7 + |JobsBytes(js, pads)|, Sep(JOB_END))
    ensures ReadJobSection(t, 0, []) == Ok(L.Reversed(js), 14 + |JobsBytes(js, pads)|)
  {
    hide *;
    SepIff(t, 0, JOB_START);
    SepIff(t, 7 + |JobsBytes(js, pads)|, JOB_END);
    JobsWritten(t, 7, js, pads, []);
    assert L.Reversed(js) + [] == L.Reversed(js);
    SectionIsRows(t, 0);
    RowsThenEnd(t, 7, 7 + |JobsBytes(js, pads)|);
  }

  lemma IntrSectionWritten(t: seq<Byte>, i: nat, xs: seq<Intr>)
    requires xs != [] && LaterIntrsClear(xs)
    requires At(t, i, Sep(INTERVAL_START)) && At(t, i + 7, IntrsBytes(xs)) && At(t, i + 7 + 31 * |xs|, Sep(INTERVAL_END))
    ensures ReadIntrSection(t, i, []) == Ok(L.Reversed(xs), i + 14 + 31 * |xs|)
  {
    hide *;
    SepIff(t, i, INTERVAL_START);
    SepIff(t, i + 7 + 31 * |xs|, INTERVAL_END);
    IntrsWritten(t, i + 7, xs, []);
    assert L.Reversed(xs) + [] == L.Reversed(xs);
    SectionIsRows(t, i);
    RowsThenEnd(t, i + 7, i + 7 + 31 * |xs|);
  }

  /** Whatever the path fields are filled with, a readable body is read back: newest rows first,
      bonds in order, and all bytes consumed. */
  lemma BodyWritten(t: seq<Byte>, periodic: bool, js: seq<Job>, pads: seq<seq<Byte>>, xs: seq<Intr>)
    requires |t| < 0x8000_0000 && |pads| == |js| && AllWellFormed(js, pads) && Readable(periodic, js, xs)
    requires At(t, 0, BodyBytes(periodic, js, pads, xs))
    ensures ReadBody(periodic, t, 0, Lists([], []))
         == Ok(Lists(L.Reversed(js), L.Reversed(xs)), |BodyBytes(periodic, js, pads, xs)|)
  {
    hide At, ReadSep, ReadJobSection, ReadIntrSection, Sep, JobsBytes, IntrsBytes, AllWellFormed, AllClean,
      LaterRowsClear, LaterIntrsClear;
    AtBody(t, 0, periodic, js, pads, xs);
    var e := 7 + |JobsBytes(js, pads)|;
    JobSectionWritten(t, js, pads);
    if periodic {
      IntrSectionWritten(t, e + 7, xs);
      SepIff(t, e + 21 + 31 * |xs|, HP_END);
    } else {
      SepIff(t, e + 7, HP_END);
    }
  }

  lemma JobSectionRead(t: seq<Byte>, i: nat, acc: seq<Job>) returns (js: seq<Job>, pads: seq<seq<Byte>>)
    requires |t| < 0x8000_0000 && ReadJobSection(t, i, acc).Ok?
    ensures |pads| == |js| > 0 && AllWellFormed(js, pads) && AllClean(js) && LaterRowsClear(js)
    ensures ReadJobSection(t, i, acc) == Ok(L.Reversed(js) + acc, i + 14 + |JobsBytes(js, pads)|)
    ensures At(t, i, Sep(JOB_START)) && At(t, i + 7, JobsBytes(js, pads))
    ensures At(t, i + 7 + |JobsBytes(js, pads)|, Sep(JOB_END))
  {
    hide At, ReadSep, ReadJobs, Sep, JobsBytes, AllWellFormed, AllClean, LaterRowsClear;
    SepIff(t, i, JOB_START);
    js, pads := JobsRead(t, i + 7, acc);
    SepIff(t, i + 7 + |JobsBytes(js, pads)|, JOB_END);
  }

  lemma IntrSectionRead(t: seq<Byte>, i: nat, acc: seq<Intr>) returns (xs: seq<Intr>)
    requires ReadIntrSection(t, i, acc).Ok?
    ensures xs != [] && LaterIntrsClear(xs)
    ensures ReadIntrSection(t, i, acc) == Ok(L.Reversed(xs) + acc, i + 14 + 31 * |xs|)
    ensures At(t, i, Sep(INTERVAL_START)) && At(t, i + 7, IntrsBytes(xs))
    ensures At(t, i + 7 + 31 * |xs|, Sep(INTERVAL_END))
  {
    hide At, ReadSep, ReadIntrs, Sep, IntrsBytes, LaterIntrsClear;
    SepIff(t, i, INTERVAL_START);
    xs := IntrsRead(t, i + 7, acc);
    SepIff(t, i + 7 + 31 * |xs|, INTERVAL_END);
  }

  /** Every accepted body had been written for the lists it adds, and these are readable. */
  lemma BodyRead(t: seq<Byte>, i: nat, periodic: bool, acc: Lists)
    returns (js: seq<Job>, pads: seq<seq<Byte>>, xs: seq<Intr>)
    requires |t| < 0x8000_0000 && ReadBody(periodic, t, i, acc).Ok?
    ensures |pads| == |js| && AllWellFormed(js, pads) && Readable(periodic, js, xs)
    ensures At(t, i, BodyBytes(periodic, js, pads, xs))
    ensures ReadBody(periodic, t, i, acc)
         == Ok(Lists(L.Reversed(js) + acc.jobs, L.Reversed(xs) + acc.intrs), i + |BodyBytes(periodic, js, pads, xs)|)
  {
    hide At, ReadSep, ReadJobSection, ReadIntrSection, Sep, JobsBytes, IntrsBytes, AllWellFormed, AllClean,
      LaterRowsClear, LaterIntrsClear;
    js, pads := JobSectionRead(t, i, acc.jobs);
    var e := i + 7 + |JobsBytes(js, pads)|;
    xs := [];
    if periodic {
      xs := IntrSectionRead(t, e + 7, acc.intrs);
      SepIff(t, e + 21 + 31 * |xs|, HP_END);
    } else {
      assert L.Reversed(xs) + acc.intrs == acc.intrs;
      SepIff(t, e + 7, HP_END);
    }
    AtBody(t, i, periodic, js, pads, xs);
  }

  // ---- one writing for one table ------------------------------------------------------------------

  lemma {:induction false} BondsUnique(t: seq<Byte>, i: nat, bonds: seq<Bond>, bonds': seq<Bond>)
    requires |bonds| == |bonds'| && At(t, i, BondsBytes(bonds)) && At(t, i, BondsBytes(bonds'))
    ensures bonds == bonds'
    decreases |bonds|
  {
    hide At, BondBytes, WordAt, Unsigned;
    if bonds != [] {
      AtBonds(t, i, bonds);
      AtBonds(t, i, bonds');
      BondIff(t, i, bonds[0]);
      BondIff(t, i, bonds'[0]);
      BondsUnique(t, i + 10, bonds[1..], bonds'[1..]);
      assert bonds == [bonds[0]] + bonds[1..] && bonds' == [bonds'[0]] + bonds'[1..];
    }
  }

  lemma PathUnique(path: seq<Byte>, pad: seq<Byte>, path': seq<Byte>, pad': seq<Byte>)
    requires PAD !in path && PAD !in path' && IsPadding(pad) && IsPadding(pad') && path + pad == path' + pad'
    ensures path == path'
  {
    var t := path + pad;
    assert t[..|path|] == path && t[..|path'|] == path';
    PathLengthOf(t, 0, |t|, |path|);
    PathLengthOf(t, 0, |t|, |path'|);
  }

  lemma FieldUnique(t: seq<Byte>, i: nat, w: Word, w': Word)
    requires At(t, i, Field(w)) && At(t, i, Field(w'))
    ensures w == w'
  {
    AtField(t, i, w);
    AtField(t, i, w');
  }

  lemma SameAt(t: seq<Byte>, i: nat, x: seq<Byte>, y: seq<Byte>)
    requires At(t, i, x) && At(t, i, y) && |x| == |y|
    ensures x == y
  {
  }

  /** A job row has one reading, up to how the path field is filled. */
  lemma JobUnique(t: seq<Byte>, i: nat, j: Job, pad: seq<Byte>, j': Job, pad': seq<Byte>)
    requires WellFormed(j, pad) && WellFormed(j', pad')
    requires At(t, i, JobBytes(j, pad)) && At(t, i, JobBytes(j', pad'))
    ensures j == j' && |pad| == |pad'|
  {
    hide At, Field, BondsBytes, JobBytes, Eol, IsPadding;
    AtJob(t, i, j, pad);
    AtJob(t, i, j', pad');
    FieldUnique(t, i, j.jid, j'.jid);
    FieldUnique(t, i + 5, j.majorId, j'.majorId);
    FieldUnique(t, i + 10, j.wcet, j'.wcet);
    FieldUnique(t, i + 15, j.dl, j'.dl);
    FieldUnique(t, i + 20, j.coreid, j'.coreid);
    FieldUnique(t, i + 25, j.intrCount, j'.intrCount);
    BondsUnique(t, i + 31, j.intr, j'.intr);
    SameAt(t, i + 33 + 10 * |j.intr|, j.binary + pad, j'.binary + pad');
    PathUnique(j.binary, pad, j'.binary, pad');
  }

  /** No row starts like a separator with a magic number below 2^24: it has a comma where the top byte stands. */
  lemma FieldIsNoSep(t: seq<Byte>, i: nat, w: Word, magic: Word)
    requires At(t, i, Field(w)) && magic < 0x100_0000
    ensures !At(t, i, Sep(magic))
  {
    AtField(t, i, w);
    if At(t, i, Sep(magic)) {
      AtSep(t, i, magic);
    }
  }

  lemma JobIsNoSep(t: seq<Byte>, i: nat, js: seq<Job>, pads: seq<seq<Byte>>)
    requires |pads| == |js| > 0 && At(t, i, JobsBytes(js, pads))
    ensures !At(t, i, Sep(JOB_END))
  {
    hide At, Field, Sep, JobBytes;
    AtJobs(t, i, js, pads);
    AtJob(t, i, js[0], pads[0]);
    FieldIsNoSep(t, i, js[0].jid, JOB_END);
  }

  lemma {:induction false} JobsUnique(t: seq<Byte>, i: nat, js: seq<Job>, pads: seq<seq<Byte>>,
                                      js': seq<Job>, pads': seq<seq<Byte>>)
    requires |pads| == |js| && |pads'| == |js'| && AllWellFormed(js, pads) && AllWellFormed(js', pads')
    requires At(t, i, JobsBytes(js, pads)) && At(t, i + |JobsBytes(js, pads)|, Sep(JOB_END))
    requires At(t, i, JobsBytes(js', pads')) && At(t, i + |JobsBytes(js', pads')|, Sep(JOB_END))
    ensures js == js' && |JobsBytes(js, pads)| == |JobsBytes(js', pads')|
    decreases |js|
  {
    hide At, JobBytes, Sep, WellFormed;
    if js == [] || js' == [] {
      if js != [] {
        JobIsNoSep(t, i, js, pads);
      }
      if js' != [] {
        JobIsNoSep(t, i, js', pads');
      }
    } else {
      AtJobs(t, i, js, pads);
      AtJobs(t, i, js', pads');
      assert WellFormed(js[0], pads[0]) && WellFormed(js'[0], pads'[0]);
      JobUnique(t, i, js[0], pads[0], js'[0], pads'[0]);
      JobsUnique(t, i + |JobBytes(js[0], pads[0])|, js[1..], pads[1..], js'[1..], pads'[1..]);
      assert js == [js[0]] + js[1..] && js' == [js'[0]] + js'[1..];
    }
  }

  lemma IntrIsNoSep(t: seq<Byte>, i: nat, xs: seq<Intr>)
    requires xs != [] && At(t, i, IntrsBytes(xs))
    ensures !At(t, i, Sep(INTERVAL_END))
  {
    hide At, Field, Sep, IntrBytes;
    AtIntrs(t, i, xs);
    AtIntr(t, i, xs[0]);
    FieldIsNoSep(t, i, xs[0].intrId, INTERVAL_END);
  }

  lemma {:induction false} IntrsUnique(t: seq<Byte>, i: nat, xs: seq<Intr>, xs': seq<Intr>)
    requires At(t, i, IntrsBytes(xs)) && At(t, i + 31 * |xs|, Sep(INTERVAL_END))
    requires At(t, i, IntrsBytes(xs')) && At(t, i + 31 * |xs'|, Sep(INTERVAL_END))
    ensures xs == xs'
    decreases |xs|
  {
    hide At, IntrBytes, Sep, FromIntrId, ReadEol;
    if xs == [] || xs' == [] {
      if xs != [] {
        IntrIsNoSep(t, i, xs);
      }
      if xs' != [] {
        IntrIsNoSep(t, i, xs');
      }
    } else {
      AtIntrs(t, i, xs);
      AtIntrs(t, i, xs');
      IntrIff(t, i, xs[0]);
      IntrIff(t, i, xs'[0]);
      IntrsUnique(t, i + 31, xs[1..], xs'[1..]);
      assert xs == [xs[0]] + xs[1..] && xs' == [xs'[0]] + xs'[1..];
    }
  }

  /** The same bytes are the body of one table only, readable or not. */
  lemma BodyUnique(t: seq<Byte>, i: nat, periodic: bool, js: seq<Job>, pads: seq<seq<Byte>>, xs: seq<Intr>,
                   js': seq<Job>, pads': seq<seq<Byte>>, xs': seq<Intr>)
    requires |pads| == |js| && |pads'| == |js'| && AllWellFormed(js, pads) && AllWellFormed(js', pads')
    requires !periodic ==> xs == xs' == []
    requires At(t, i, BodyBytes(periodic, js, pads, xs)) && At(t, i, BodyBytes(periodic, js', pads', xs'))
    ensures js == js' && xs == xs'
  {
    hide At, Sep, JobsBytes, IntrsBytes, AllWellFormed, BodyBytes;
    AtBody(t, i, periodic, js, pads, xs);
    AtBody(t, i, periodic, js', pads', xs');
    JobsUnique(t, i + 7, js, pads, js', pads');
    if periodic {
      IntrsUnique(t, i + 14 + 7 + |JobsBytes(js, pads)|, xs, xs');
    }
  }

  // ---- what becomes of a table that is not readable ---------------------------------------------

  /** A bond that starts like the end of the bonds ends them early, and then too few were read. */
  lemma {:induction false} BondsRefused(t: seq<Byte>, i: nat, halt: nat, count: Word, acc: seq<Bond>, rest: seq<Bond>)
    requires halt == 1 + 10 * |acc| && |acc| + |rest| == count && count * 10 + 2 < 0x1_0000_0000
    requires At(t, i + halt, BondsBytes(rest)) && !CleanBonds(rest)
    ensures ReadBonds(t, i, halt, count, acc) == Refused
    decreases |rest|
  {
    hide At, ReadBond, BondLimit, BondBytes;
    LimitIsTight(count);
    AtBonds(t, i + halt, rest);
    BondStep(t, i + halt, rest[0]);
    if Unsigned(rest[0].intrId) % 256 != CLOSE {
      BondsRefused(t, i, halt + 10, count, acc + [rest[0]], rest[1..]);
    }
  }

  lemma RowRefused(t: seq<Byte>, i: nat, j: Job, pad: seq<Byte>)
    requires |t| < 0x8000_0000 && WellFormed(j, pad) && !CleanBonds(j.intr) && At(t, i, JobBytes(j, pad))
    ensures FromMinorId(t, i, BLANK_JOB) == Refused
  {
    hide At, ReadField, ReadBonds, Field, BondsBytes, JobBytes, Eol, WordAt, CleanBonds, IsPadding, JobHead;
    AtJob(t, i, j, pad);
    FieldIff(t, i, j.jid);
    FieldIff(t, i + 5, j.majorId);
    FieldIff(t, i + 10, j.wcet);
    FieldIff(t, i + 15, j.dl);
    FieldIff(t, i + 20, j.coreid);
    FieldIff(t, i + 25, j.intrCount);
    AtOne(t, i + 30, OPEN);
    AtWithin(t, i + 31, BondsBytes(j.intr));
    BondsRefused(t, i + 30, 1, j.intrCount, [], j.intr);
  }

  /** Where a separator stands there is no row, and where a row stands there is no separator. */
  lemma SepIsNoRow(t: seq<Byte>, i: nat, magic: Word)
    requires At(t, i, Sep(magic)) && magic < 0x100_0000
    ensures FromMinorId(t, i, BLANK_JOB) == Refused && FromIntrId(t, i, BLANK_INTR) == Refused
  {
    AtSep(t, i, magic);
  }

  lemma RowIsNoSep(t: seq<Byte>, i: nat, w: Word, magic: Word)
    requires At(t, i, Field(w)) && LooksLikeSep(t, i) && magic < 0x100_0000
    ensures ReadSep(t, i, magic) == Refused
  {
    AtField(t, i, w);
  }

  lemma JobRowIsNoSep(t: seq<Byte>, i: nat, j: Job, pad: seq<Byte>)
    requires At(t, i, JobBytes(j, pad)) && LooksLikeSep(t, i)
    ensures ReadSep(t, i, JOB_END) == Refused
  {
    hide At, Field, JobBytes, LooksLikeSep, ReadSep;
    AtJob(t, i, j, pad);
    RowIsNoSep(t, i, j.jid, JOB_END);
  }

  lemma IntrRowIsNoSep(t: seq<Byte>, i: nat, x: Intr)
    requires At(t, i, IntrBytes(x)) && LooksLikeSep(t, i)
    ensures ReadSep(t, i, INTERVAL_END) == Refused
  {
    hide At, Field, IntrBytes, LooksLikeSep, ReadSep;
    AtIntr(t, i, x);
    RowIsNoSep(t, i, x.intrId, INTERVAL_END);
  }

  /** The first row that cannot be read back is one without bonds: all before it have clean bonds, and
      neither they nor it are mistaken for a separator. */
  predicate MeetsUnsetRow(js: seq<Job>) {
    js != [] && (js[0].intr == []
      || (CleanBonds(js[0].intr) && |js| > 1 && !JobLooksLikeSep(js[1]) && MeetsUnsetRow(js[1..])))
  }

  lemma JobsToEndStep(t: seq<Byte>, i: nat, acc: seq<Job>, j: Job, n: nat)
    requires FromMinorId(t, i, BLANK_JOB) == Ok(j, n) && n <= |t| && ReadEol(t, n) == Ok((), n + 2) && CanPeek(t, n + 2)
    ensures JobsToEnd(t, i, acc) ==
      if j.intr == [] then Undefined
      else if !LooksLikeSep(t, n + 2) then JobsToEnd(t, n + 2, [j] + acc)
      else
        var (_, n') :- ReadSep(t, n + 2, JOB_END);
        Ok([j] + acc, n')
  {
    hide FromMinorId, ReadEol, ReadSep, CanPeek, LooksLikeSep;
    var row := FromMinorId(t, i, BLANK_JOB);
    assert ReadJobs(t, i, acc) == JobsAfter(t, row, acc);
  }

  lemma {:induction false} JobsOutcome(t: seq<Byte>, i: nat, js: seq<Job>, pads: seq<seq<Byte>>, acc: seq<Job>)
    requires |t| < 0x8000_0000 && |pads| == |js| && AllWellFormed(js, pads)
    requires At(t, i, JobsBytes(js, pads)) && At(t, i + |JobsBytes(js, pads)|, Sep(JOB_END))
    ensures JobsToEnd(t, i, acc).Undefined? <==> MeetsUnsetRow(js)
    decreases |js|
  {
    hide At, Sep, FromMinorId, ReadEol, ReadSep, CanPeek, LooksLikeSep, JobBytes, CleanBonds, WellFormed, JobLooksLikeSep;
    if js == [] {
      SepIsNoRow(t, i, JOB_END);
      assert ReadJobs(t, i, acc) == Refused;
    } else {
      AtJobs(t, i, js, pads);
      assert WellFormed(js[0], pads[0]);
      if js[0].intr == [] {
        NoBondsAreClean();
      }
      if !CleanBonds(js[0].intr) {
        RowRefused(t, i, js[0], pads[0]);
        assert ReadJobs(t, i, acc) == Refused;
      } else {
        JobWritten(t, i, js[0], pads[0]);
        var n := i + |JobBytes(js[0], pads[0])|;
        EolNext(t, n - 2);
        JobsBehindRow(t, n, js[1..], pads[1..]);
        JobsToEndStep(t, i, acc, js[0], n - 2);
        if |js| > 1 {
          JobsOutcome(t, n, js[1..], pads[1..], [js[0]] + acc);
        }
      }
    }
  }

  lemma NoBondsAreClean()
    ensures CleanBonds([])
  {
  }

  /** Behind a row, the next one or the separator. */
  lemma JobsBehindRow(t: seq<Byte>, i: nat, js: seq<Job>, pads: seq<seq<Byte>>)
    requires |pads| == |js| && At(t, i, JobsBytes(js, pads)) && At(t, i + |JobsBytes(js, pads)|, Sep(JOB_END))
    ensures CanPeek(t, i)
    ensures js == [] ==> LooksLikeSep(t, i) && ReadSep(t, i, JOB_END).Ok?
    ensures js != [] ==>
      && (LooksLikeSep(t, i) <==> JobLooksLikeSep(js[0]))
      && (LooksLikeSep(t, i) ==> ReadSep(t, i, JOB_END) == Refused)
  {
    hide At, Sep, ReadSep, CanPeek, LooksLikeSep, JobBytes, JobLooksLikeSep;
    if js == [] {
      SepIff(t, i, JOB_END);
    } else {
      AtJobs(t, i, js, pads);
      JobRowSep(t, i, js[0], pads[0]);
      if LooksLikeSep(t, i) {
        JobRowIsNoSep(t, i, js[0], pads[0]);
      }
    }
  }

  lemma IntrsToEndStep(t: seq<Byte>, i: nat, acc: seq<Intr>, x: Intr, n: nat)
    requires FromIntrId(t, i, BLANK_INTR) == Ok(x, n) && n <= |t| && ReadEol(t, n) == Ok((), n + 2) && CanPeek(t, n + 2)
    ensures IntrsToEnd(t, i, acc) ==
      if !LooksLikeSep(t, n + 2) then IntrsToEnd(t, n + 2, [x] + acc)
      else
        var (_, n') :- ReadSep(t, n + 2, INTERVAL_END);
        Ok([x] + acc, n')
  {
    hide FromIntrId, ReadEol, ReadSep, CanPeek, LooksLikeSep;
    var row := FromIntrId(t, i, BLANK_INTR);
    assert ReadIntrs(t, i, acc) == IntrsAfter(t, row, acc);
  }

  lemma {:induction false} IntrsOutcome(t: seq<Byte>, i: nat, xs: seq<Intr>, acc: seq<Intr>)
    requires At(t, i, IntrsBytes(xs)) && At(t, i + 31 * |xs|, Sep(INTERVAL_END))
    ensures !IntrsToEnd(t, i, acc).Undefined?
    decreases |xs|
  {
    hide At, Sep, FromIntrId, ReadEol, ReadSep, CanPeek, LooksLikeSep, IntrBytes, IntrLooksLikeSep;
    if xs == [] {
      SepIsNoRow(t, i, INTERVAL_END);
      assert ReadIntrs(t, i, acc) == Refused;
    } else {
      AtIntrs(t, i, xs);
      IntrIff(t, i, xs[0]);
      EolNext(t, i + 29);
      if |xs| == 1 {
        SepIff(t, i + 31, INTERVAL_END);
      } else {
        AtIntrs(t, i + 31, xs[1..]);
        IntrRowSep(t, i + 31, xs[1]);
        if LooksLikeSep(t, i + 31) {
          IntrRowIsNoSep(t, i + 31, xs[1]);
        }
        IntrsOutcome(t, i + 31, xs[1..], [xs[0]] + acc);
      }
      IntrsToEndStep(t, i, acc, xs[0], i + 29);
    }
  }

  lemma JobSectionOutcome(t: seq<Byte>, js: seq<Job>, pads: seq<seq<Byte>>)
    requires |t| < 0x8000_0000 && |pads| == |js| && AllWellFormed(js, pads)
    requires At(t, 0, Sep(JOB_START)) && At(t, 7, JobsBytes(js, pads)) && At(t, 7 + |JobsBytes(js, pads)|, Sep(JOB_END))
    ensures var r := ReadJobSection(t, 0, []);
      (r.Undefined? <==> MeetsUnsetRow(js)) && (r.Ok? ==> r.next == 14 + |JobsBytes(js, pads)|)
  {
    hide *;
    SepIff(t, 0, JOB_START);
    SectionIsRows(t, 0);
    JobsOutcome(t, 7, js, pads, []);
    if ReadJobSection(t, 0, []).Ok? {
      var js', pads' := JobSectionRead(t, 0, []);
      JobsUnique(t, 7, js, pads, js', pads');
    }
  }

  lemma IntrSectionOutcome(t: seq<Byte>, i: nat, xs: seq<Intr>)
    requires At(t, i, Sep(INTERVAL_START)) && At(t, i + 7, IntrsBytes(xs)) && At(t, i + 7 + 31 * |xs|, Sep(INTERVAL_END))
    ensures var r := ReadIntrSection(t, i, []);
      !r.Undefined? && (r.Ok? ==> r.next == i + 14 + 31 * |xs|)
  {
    hide *;
    SepIff(t, i, INTERVAL_START);
    SectionIsRows(t, i);
    IntrsOutcome(t, i + 7, xs, []);
    if ReadIntrSection(t, i, []).Ok? {
      var xs' := IntrSectionRead(t, i, []);
      IntrsUnique(t, i + 7, xs, xs');
    }
  }

  /** Reading a written body comes to depend on memory never set exactly when it meets a row without
      bonds first; anything else that is wrong with the table is noticed and refused. */
  lemma BodyOutcome(t: seq<Byte>, periodic: bool, js: seq<Job>, pads: seq<seq<Byte>>, xs: seq<Intr>)
    requires |t| < 0x8000_0000 && |pads| == |js| && AllWellFormed(js, pads)
    requires At(t, 0, BodyBytes(periodic, js, pads, xs))
    ensures ReadBody(periodic, t, 0, Lists([], [])).Undefined? <==> MeetsUnsetRow(js)
  {
    hide At, ReadSep, Sep, ReadJobSection, ReadIntrSection, JobsBytes, IntrsBytes, AllWellFormed, MeetsUnsetRow, BodyBytes,
      CanPeek, LooksLikeSep;
    AtBody(t, 0, periodic, js, pads, xs);
    JobSectionOutcome(t, js, pads);
    var e := 7 + |JobsBytes(js, pads)|;
    if periodic {
      IntrSectionOutcome(t, e + 7, xs);
      SepIff(t, e + 21 + 31 * |xs|, HP_END);
    } else {
      SepIff(t, e + 7, HP_END);
    }
  }
}
