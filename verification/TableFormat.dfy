// The binary format of an offline table: rows of little-endian words between delimiters.

module TableFormat {

  type Byte = b: int | 0 <= b < 256
  type Word = w: int | 0 <= w < 0x1_0000_0000
  type Int32 = s: int | -0x8000_0000 <= s < 0x8000_0000

  const COMMA: Byte := 44
  const BANG: Byte := 33
  const OPEN: Byte := 91
  const CLOSE: Byte := 93
  const COLON: Byte := 58
  const CR: Byte := 13
  const LF: Byte := 10
  const PAD: Byte := 0xFF
  const NUL: Byte := 0

  const PATH_MAX := 255

  const HP_START: Word := 0x244
  const HP_END: Word := 0x1CE
  const JOB_START: Word := 0x1F6
  const JOB_END: Word := 0x211
  const INTERVAL_START: Word := 0x2D8
  const INTERVAL_END: Word := 0x221

  /** One interval of a job, with the earliest start of the instance there. */
  datatype Bond = Bond(intrId: Int32, est: Word)

  datatype Job = Job(jid: Word, majorId: Word, wcet: Word, dl: Word, coreid: Word, intrCount: Word,
                     binary: seq<Byte>, intr: seq<Bond>)

  datatype Intr = Intr(intrId: Word, core: Word, start: Word, end: Word, sc: Int32, noOfTsk: Word)

  datatype Header = Header(jobCount: Word, intCount: Word, intrJobAsc: Word, slotCount: Word, slotQuantum: Word)

  // ---- words ------------------------------------------------------------------------------

  function Le32(w: Word): (b: seq<Byte>)
    ensures |b| == 4
  {
    [w % 256, w / 256 % 256, w / 0x1_0000 % 256, w / 0x100_0000]
  }

  function FromBytes(b0: Byte, b1: Byte, b2: Byte, b3: Byte): Word {
    b0 + 256 * b1 + 0x1_0000 * b2 + 0x100_0000 * b3
  }

  function Signed(w: Word): Int32 {
    if w < 0x8000_0000 then w else w - 0x1_0000_0000
  }

  function Unsigned(s: Int32): Word {
    if s >= 0 then s else s + 0x1_0000_0000
  }

  lemma WordRoundTrip(w: Word)
    ensures FromBytes(Le32(w)[0], Le32(w)[1], Le32(w)[2], Le32(w)[3]) == w
  {
    var b := Le32(w);
    assert w / 0x1_0000 == w / 256 / 256;
    assert w / 0x100_0000 == w / 256 / 256 / 256;
  }

  lemma BytesRoundTrip(b0: Byte, b1: Byte, b2: Byte, b3: Byte)
    ensures Le32(FromBytes(b0, b1, b2, b3)) == [b0, b1, b2, b3]
  {
    var w := FromBytes(b0, b1, b2, b3);
    assert w / 256 == b1 + 256 * b2 + 0x1_0000 * b3;
    assert w / 0x1_0000 == b2 + 256 * b3;
    assert w / 0x100_0000 == b3;
  }

  lemma SignRoundTrip(s: Int32, w: Word)
    ensures Signed(Unsigned(s)) == s && Unsigned(Signed(w)) == w
    ensures Signed(w) == w || Signed(w) == w - 0x1_0000_0000
  {
  }

  // ---- rows ---------------------------------------------------------------------------------

  /** A word followed by the primary delimiter. */
  function Field(w: Word): (b: seq<Byte>)
    ensures |b| == 5
  {
    Le32(w) + [COMMA]
  }

  function Eol(): (b: seq<Byte>)
    ensures |b| == 2
  {
    [CR, LF]
  }

  /** A data separator. */
  function Sep(magic: Word): (b: seq<Byte>)
    ensures |b| == 7
  {
    [BANG] + Le32(magic) + Eol()
  }

  function BondBytes(b: Bond): (r: seq<Byte>)
    ensures |r| == 10
  {
    Le32(Unsigned(b.intrId)) + [COLON] + Field(b.est)
  }

  function BondsBytes(bonds: seq<Bond>): (r: seq<Byte>)
    ensures |r| == 10 * |bonds|
  {
    if bonds == [] then [] else BondBytes(bonds[0]) + BondsBytes(bonds[1..])
  }

  /** What may follow a path within its field: nothing, or anything that starts with the pad byte. */
  predicate IsPadding(pad: seq<Byte>) {
    pad == [] || pad[0] == PAD
  }

  /** Everything of a job row before its bonds. */
  function JobHead(j: Job): (r: seq<Byte>)
    ensures |r| == 31
  {
    Field(j.jid) + (Field(j.majorId) + (Field(j.wcet) + (Field(j.dl) + (Field(j.coreid) + (Field(j.intrCount) + [OPEN])))))
  }

  /** A job row; `pad` fills the path field behind the path. */
  function JobBytes(j: Job, pad: seq<Byte>): (r: seq<Byte>)
    ensures |r| == 35 + 10 * |j.intr| + |j.binary| + |pad|
  {
    JobHead(j) + (BondsBytes(j.intr) + ([CLOSE, COMMA] + (j.binary + pad + Eol())))
  }

  function JobsBytes(js: seq<Job>, pads: seq<seq<Byte>>): seq<Byte>
    requires |pads| == |js|
  {
    if js == [] then [] else JobBytes(js[0], pads[0]) + JobsBytes(js[1..], pads[1..])
  }

  function IntrBytes(x: Intr): (r: seq<Byte>)
    ensures |r| == 31
  {
    Field(x.intrId) + (Field(x.core) + (Field(x.start) + (Field(x.end) + (Field(Unsigned(x.sc))
      + (Le32(x.noOfTsk) + Eol())))))
  }

  function IntrsBytes(xs: seq<Intr>): (r: seq<Byte>)
    ensures |r| == 31 * |xs|
  {
    if xs == [] then [] else IntrBytes(xs[0]) + IntrsBytes(xs[1..])
  }

  /** The header row of a hyperperiod. */
  function HeaderBytes(h: Header): (r: seq<Byte>)
    ensures |r| == 33
  {
    Sep(HP_START) + (Field(h.jobCount) + (Field(h.intCount) + (Field(h.intrJobAsc)
      + (Field(h.slotCount) + (Le32(h.slotQuantum) + Eol())))))
  }

  /** The body of a hyperperiod; the interval section is there for periodic tables only. */
  function BodyBytes(periodic: bool, js: seq<Job>, pads: seq<seq<Byte>>, xs: seq<Intr>): seq<Byte>
    requires |pads| == |js|
  {
    Sep(JOB_START) + (JobsBytes(js, pads) + (Sep(JOB_END)
      + ((if periodic then Sep(INTERVAL_START) + (IntrsBytes(xs) + Sep(INTERVAL_END)) else []) + Sep(HP_END))))
  }

  // ---- as the table definition has them -------------------------------------------------------

  lemma Delimiters()
    ensures BANG == '!' as int && COMMA == ',' as int && COLON == ':' as int
    ensures OPEN == '[' as int && CLOSE == ']' as int && CR == '\r' as int && LF == '\n' as int
  {
  }

  lemma Separators()
    ensures Sep(HP_START) == [33, 0x44, 2, 0, 0, 13, 10] && Sep(HP_END) == [33, 0xCE, 1, 0, 0, 13, 10]
    ensures Sep(JOB_START) == [33, 0xF6, 1, 0, 0, 13, 10] && Sep(JOB_END) == [33, 0x11, 2, 0, 0, 13, 10]
    ensures Sep(INTERVAL_START) == [33, 0xD8, 2, 0, 0, 13, 10] && Sep(INTERVAL_END) == [33, 0x21, 2, 0, 0, 13, 10]
  {
  }

  // ---- lengths ------------------------------------------------------------------------------

  /** A job as a table can hold it: its counters match, its path fits and has no pad byte. */
  predicate WellFormed(j: Job, pad: seq<Byte>) {
    j.intrCount == |j.intr| && PAD !in j.binary && |j.binary| + |pad| == PATH_MAX && IsPadding(pad)
  }

  predicate AllWellFormed(js: seq<Job>, pads: seq<seq<Byte>>)
    requires |pads| == |js|
  {
    forall i :: 0 <= i < |js| ==> WellFormed(js[i], pads[i])
  }

  function BondCount(js: seq<Job>): nat {
    if js == [] then 0 else |js[0].intr| + BondCount(js[1..])
  }

  /** The length the reader computes from the three counts of the header, before truncation. */
  function BufferLength(periodic: bool, intrs: nat, jobs: nat, bonds: nat): nat {
    (if periodic then 31 * intrs + 14 else 0) + 290 * jobs + 10 * bonds + 14 + 7
  }

  lemma {:induction false} JobsLength(js: seq<Job>, pads: seq<seq<Byte>>)
    requires |pads| == |js| && AllWellFormed(js, pads)
    ensures |JobsBytes(js, pads)| == 290 * |js| + 10 * BondCount(js)
    decreases |js|
  {
    if js != [] {
      assert WellFormed(js[0], pads[0]);
      assert AllWellFormed(js[1..], pads[1..]);
      JobsLength(js[1..], pads[1..]);
    }
  }

  /** For counts that match the data, the length computed from the header is the length of the body. */
  lemma BodyLength(periodic: bool, js: seq<Job>, pads: seq<seq<Byte>>, xs: seq<Intr>)
    requires |pads| == |js| && AllWellFormed(js, pads)
    ensures |BodyBytes(periodic, js, pads, xs)| == BufferLength(periodic, |xs|, |js|, BondCount(js))
  {
    JobsLength(js, pads);
  }

  // ---- bytes at a position --------------------------------------------------------------------

  /** The bytes x stand in t from position i on. */
  predicate At(t: seq<Byte>, i: nat, x: seq<Byte>) {
    i + |x| <= |t| && t[i..i + |x|] == x
  }

  lemma AtSplit(t: seq<Byte>, i: nat, x: seq<Byte>, y: seq<Byte>)
    ensures At(t, i, x + y) <==> At(t, i, x) && At(t, i + |x|, y)
  {
    if i + |x| + |y| <= |t| {
      assert t[i..i + |x| + |y|] == t[i..i + |x|] + t[i + |x|..i + |x| + |y|];
      assert (x + y)[..|x|] == x && (x + y)[|x|..] == y;
    }
  }

  lemma AtOne(t: seq<Byte>, i: nat, b: Byte)
    ensures At(t, i, [b]) <==> i < |t| && t[i] == b
  {
    if i < |t| {
      assert t[i..i + 1] == [t[i]];
    }
  }

  lemma AtEmpty(t: seq<Byte>, i: nat)
    requires i <= |t|
    ensures At(t, i, [])
  {
  }

  function WordAt(t: seq<Byte>, i: nat): Word
    requires i + 4 <= |t|
  {
    FromBytes(t[i], t[i + 1], t[i + 2], t[i + 3])
  }

  lemma AtWord(t: seq<Byte>, i: nat, w: Word)
    ensures At(t, i, Le32(w)) <==> i + 4 <= |t| && WordAt(t, i) == w
  {
    if i + 4 <= |t| {
      var s := t[i..i + 4];
      assert s == [t[i], t[i + 1], t[i + 2], t[i + 3]];
      BytesRoundTrip(t[i], t[i + 1], t[i + 2], t[i + 3]);
      WordRoundTrip(w);
      if s == Le32(w) {
        assert s[0] == Le32(w)[0] && s[1] == Le32(w)[1] && s[2] == Le32(w)[2] && s[3] == Le32(w)[3];
      }
    }
  }

  lemma AtField(t: seq<Byte>, i: nat, w: Word)
    ensures At(t, i, Field(w)) <==> i + 5 <= |t| && WordAt(t, i) == w && t[i + 4] == COMMA
  {
    AtSplit(t, i, Le32(w), [COMMA]);
    AtWord(t, i, w);
    AtOne(t, i + 4, COMMA);
  }

  lemma AtEol(t: seq<Byte>, i: nat)
    ensures At(t, i, Eol()) <==> i + 2 <= |t| && t[i] == CR && t[i + 1] == LF
  {
    assert Eol() == [CR] + [LF];
    AtSplit(t, i, [CR], [LF]);
    AtOne(t, i, CR);
    AtOne(t, i + 1, LF);
  }

  lemma AtSep(t: seq<Byte>, i: nat, magic: Word)
    ensures At(t, i, Sep(magic)) <==>
      i + 7 <= |t| && t[i] == BANG && WordAt(t, i + 1) == magic && t[i + 5] == CR && t[i + 6] == LF
  {
    AtSplit(t, i, [BANG] + Le32(magic), Eol());
    AtSplit(t, i, [BANG], Le32(magic));
    AtOne(t, i, BANG);
    AtWord(t, i + 1, magic);
    AtEol(t, i + 5);
  }
}
