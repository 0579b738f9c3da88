/** The byte format of the log ring's entries (svc/log.c): a record is a 20-byte header
    followed by NUL-terminated text padded to a multiple of four; a SKIP entry is a
    single word that fills the fragment before the physical end of the ring. */
module LogRecord {
  import opened Machine

  const REC_MAGIC: byte := 0xA5
  const LEVEL_SKIP: byte := 0xFF
  const LEVEL_DBG: byte := 3
  const HDR_SIZE := 20
  const REC_MIN := 24
  const REC_MAX := 128
  const TAG_MAX := 8
  const MSG_MAX := 104

  datatype Record = Record(level: byte, ts: u32, seqNo: u32, tag: seq<byte>, body: seq<byte>)

  datatype Entry = Skip(size: nat) | Rec(record: Record)

  predicate RecordOk(r: Record) {
    |r.tag| == TAG_MAX && |r.body| % 4 == 0 && 4 <= |r.body| <= REC_MAX - HDR_SIZE && r.level != LEVEL_SKIP
  }

  function RecLen(r: Record): nat { HDR_SIZE + |r.body| }

  function Len(e: Entry): nat {
    match e
    case Skip(n) => n
    case Rec(r) => RecLen(r)
  }

  /** The leading word of an entry, as the code shifts it apart. */
  function Total(w0: u32): u16 { w0 % TWO16 }

  function Level(w0: u32): byte { w0 / TWO16 % 256 }

  function Magic(w0: u32): byte { w0 / 0x100_0000 }

  function Lead(total: u16, level: byte): (b: seq<byte>)
    ensures |b| == 4 && b[2] == level
  {
    Le16(total) + [level, REC_MAGIC]
  }

  lemma LeadFields(total: u16, level: byte)
    ensures var w := FromLe32(Lead(total, level));
            Total(w) == total && Level(w) == level && Magic(w) == REC_MAGIC
  {
    var b := Lead(total, level);
    assert b[..2] == Le16(total) && b[2..] == [level, REC_MAGIC];
    assert FromLe16(b[2..]) == level + 256 * REC_MAGIC;
    ModUnique(FromLe32(b), TWO16, level + 256 * REC_MAGIC, total);
  }

  /** The SKIP word is written as one 32-bit store. */
  lemma SkipWordIsLead(n: u16)
    ensures Le32(n + 0x1_0000 * LEVEL_SKIP + 0x100_0000 * REC_MAGIC) == Lead(n, LEVEL_SKIP)
  {
    ModUnique(n + 0x1_0000 * LEVEL_SKIP + 0x100_0000 * REC_MAGIC, TWO16, LEVEL_SKIP + 256 * REC_MAGIC, n);
  }

  function EncodeHeader(r: Record): (b: seq<byte>)
    requires RecordOk(r)
    ensures |b| == HDR_SIZE
  {
    Lead(RecLen(r), r.level) + Le32(r.ts) + Le32(r.seqNo) + r.tag
  }

  function EncodeRecord(r: Record): (b: seq<byte>)
    requires RecordOk(r)
    ensures |b| == RecLen(r)
  {
    EncodeHeader(r) + r.body
  }

  // ---- what a writer stores ------------------------------------------------

  /** A C string held in a byte buffer: everything before the first NUL. */
  function CStr(s: seq<byte>): (c: seq<byte>)
    ensures |c| <= |s| && c == s[..|c|]
    ensures 0 !in c
    ensures |c| < |s| ==> s[|c|] == 0
  {
    if s == [] || s[0] == 0 then [] else [s[0]] + CStr(s[1..])
  }

  function TagField(tag: seq<byte>): (t: seq<byte>)
    ensures |t| == TAG_MAX
  {
    var c := CStr(tag);
    if |c| < TAG_MAX then c + Zeros(TAG_MAX - |c|) else c[..TAG_MAX]
  }

  function Padded(stored: nat): nat { (stored + 3) / 4 * 4 }

  function BodyOf(text: seq<byte>): (b: seq<byte>)
    ensures |b| == Padded(|text| + 1)
  {
    text + [0] + Zeros(Padded(|text| + 1) - (|text| + 1))
  }

  function MakeRecord(level: byte, ts: u32, seqNo: u32, tag: seq<byte>, text: seq<byte>): (r: Record)
    requires level <= LEVEL_DBG && |text| <= MSG_MAX
    ensures RecordOk(r)
  {
    Record(level, ts, seqNo, TagField(tag), BodyOf(text))
  }

  // ---- what a reader shows -------------------------------------------------

  datatype Shown = Shown(ts: u32, seqNo: u32, level: byte, tag: seq<byte>, text: seq<byte>)

  /** The fields log_iter_next copies out; @p prev is the caller's buffer, whose bytes
      beyond the copied text survive. */
  function Show(r: Record, prev: seq<byte>): Shown
    requires RecordOk(r) && |prev| == MSG_MAX + 1
  {
    var tlen := Min(|r.body|, MSG_MAX + 1);
    Shown(r.ts, r.seqNo, r.level, r.tag + [0], (r.body[..tlen] + prev[tlen..])[MSG_MAX := 0])
  }

  lemma {:induction false} CStrTerminated(t: seq<byte>, rest: seq<byte>)
    ensures CStr(t + [0] + rest) == CStr(t)
  {
    if t == [] {
      assert ([] + [0] + rest)[0] == 0;
    } else {
      assert (t + [0] + rest)[0] == t[0];
      assert (t + [0] + rest)[1..] == t[1..] + [0] + rest;
      CStrTerminated(t[1..], rest);
    }
  }

  lemma ShowText(level: byte, ts: u32, seqNo: u32, tag: seq<byte>, text: seq<byte>, prev: seq<byte>)
    requires level <= LEVEL_DBG && |text| <= MSG_MAX && |prev| == MSG_MAX + 1
    ensures var s := Show(MakeRecord(level, ts, seqNo, tag, text), prev);
            CStr(s.text) == CStr(text) && |s.text| == MSG_MAX + 1
  {
    hide CStr;
    var s := Show(MakeRecord(level, ts, seqNo, tag, text), prev);
    assert s.text[..|text|] == text && s.text[|text|] == 0;
    assert s.text == text + [0] + s.text[|text| + 1..];
    CStrTerminated(text, s.text[|text| + 1..]);
  }

  lemma ShowTag(level: byte, ts: u32, seqNo: u32, tag: seq<byte>, text: seq<byte>, prev: seq<byte>)
    requires level <= LEVEL_DBG && |text| <= MSG_MAX && |prev| == MSG_MAX + 1
    ensures var s := Show(MakeRecord(level, ts, seqNo, tag, text), prev);
            CStr(s.tag) == (if |CStr(tag)| <= TAG_MAX then CStr(tag) else CStr(tag)[..TAG_MAX]) && |s.tag| == TAG_MAX + 1
  {
    var s := Show(MakeRecord(level, ts, seqNo, tag, text), prev);
    var c := CStr(tag);
    var t := if |c| < TAG_MAX then c else c[..TAG_MAX];
    NoNul(t);
    assert s.tag == t + [0] + s.tag[|t| + 1..];
    CStrTerminated(t, s.tag[|t| + 1..]);
  }

  /** Reading back what was written: level, timestamp and sequence number are exact, and
      the text and the (at most eight-byte) tag come back as the same C strings. */
  lemma ShowReturnsWritten(level: byte, ts: u32, seqNo: u32, tag: seq<byte>, text: seq<byte>, prev: seq<byte>)
    requires level <= LEVEL_DBG && |text| <= MSG_MAX && |prev| == MSG_MAX + 1
    ensures var s := Show(MakeRecord(level, ts, seqNo, tag, text), prev);
            && s.level == level && s.ts == ts && s.seqNo == seqNo
            && CStr(s.text) == CStr(text)
            && CStr(s.tag) == (if |CStr(tag)| <= TAG_MAX then CStr(tag) else CStr(tag)[..TAG_MAX])
            && |s.text| == MSG_MAX + 1 && |s.tag| == TAG_MAX + 1
  {
    hide CStr;
    ShowText(level, ts, seqNo, tag, text, prev);
    ShowTag(level, ts, seqNo, tag, text, prev);
  }

  lemma {:induction false} NoNul(s: seq<byte>)
    requires 0 !in s
    ensures CStr(s) == s
  {
    if s == [] {
    } else {
      NoNul(s[1..]);
    }
  }
}
