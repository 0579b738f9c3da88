/** The persistent image of the log ring (svc/log.c), the list of entries it stands for,
    and the individual memory stores the code performs on it. */
module LogRing {
  import opened Machine
  import opened LogRecord

  const LOG_MAGIC: u32 := 0x474F_4C31
  const LOG_VERSION: u32 := 1

  /** The compile-time constraints on the data size: a power of two (it divides 2^32)
      that holds a SKIP fragment plus a maximal record.  No array on a 32-bit target
      exceeds 2^30 bytes. */
  ghost predicate Geometry(n: nat) {
    2 * REC_MAX <= n <= 0x4000_0000 && n % 4 == 0 && Phys(n, TWO32) == 0
  }

  datatype Image = Image(magic: u32, version: u32, size: u32, head: u32, tail: u32,
                         seqNo: u32, bootCount: u32, data: seq<byte>)

  /** The entries of the ring, oldest first, with the never-wrapping offset of the oldest. */
  datatype Queue = Queue(base: nat, entries: seq<Entry>)

  function TotalLen(es: seq<Entry>): nat {
    if es == [] then 0 else Len(es[0]) + TotalLen(es[1..])
  }

  function Records(es: seq<Entry>): seq<Record> {
    if es == [] then [] else (if es[0].Rec? then [es[0].record] else []) + Records(es[1..])
  }

  function End(q: Queue): nat { q.base + TotalLen(q.entries) }

  /** Entry @p e occupies the physical bytes from @p p on, without passing the end. */
  predicate EntryAt(d: seq<byte>, p: nat, e: Entry) {
    p + Len(e) <= |d| &&
    match e
    case Skip(n) => 4 <= n < TWO16 && n % 4 == 0 && p + n == |d| && d[p..p + 4] == Lead(n, LEVEL_SKIP)
    case Rec(r) => RecordOk(r) && d[p..p + RecLen(r)] == EncodeRecord(r)
  }

  /** The entries @p es tile the ring from physical offset @p p on; only the boundary
      between two entries may fall on the physical end. */
  predicate Holds(d: seq<byte>, p: nat, es: seq<Entry>)
    decreases |es|
  {
    es == [] || (EntryAt(d, p, es[0]) && Holds(d, Wrap(|d|, p + Len(es[0])), es[1..]))
  }

  ghost predicate HeaderOk(img: Image) {
    && Geometry(|img.data|)
    && img.magic == LOG_MAGIC && img.version == LOG_VERSION && img.size == |img.data|
  }

  /** The image stands for the queue. */
  ghost predicate Rep(img: Image, q: Queue) {
    && HeaderOk(img)
    && q.base % 4 == 0
    && img.tail == q.base % TWO32
    && img.head == End(q) % TWO32
    && TotalLen(q.entries) <= |img.data|
    && Holds(img.data, Phys(|img.data|, q.base), q.entries)
  }

  // ---- tiling --------------------------------------------------------------

  lemma {:induction false} TotalLenConcat(a: seq<Entry>, b: seq<Entry>)
    ensures TotalLen(a + b) == TotalLen(a) + TotalLen(b)
  {
    if a == [] {
      assert a + b == b;
    } else {
      assert (a + b)[1..] == a[1..] + b;
      TotalLenConcat(a[1..], b);
    }
  }

  lemma {:induction false} RecordsConcat(a: seq<Entry>, b: seq<Entry>)
    ensures Records(a + b) == Records(a) + Records(b)
  {
    if a == [] {
      assert a + b == b;
    } else {
      assert (a + b)[1..] == a[1..] + b;
      RecordsConcat(a[1..], b);
      var hd := if a[0].Rec? then [a[0].record] else [];
      assert hd + (Records(a[1..]) + Records(b)) == (hd + Records(a[1..])) + Records(b);
    }
  }

  lemma EntrySize(d: seq<byte>, p: nat, e: Entry)
    requires EntryAt(d, p, e)
    ensures p + Len(e) <= |d| && 4 <= Len(e) < TWO16 && Len(e) % 4 == 0
  {
  }

  lemma {:induction false} HoldsAligned(d: seq<byte>, p: nat, es: seq<Entry>)
    requires |d| % 4 == 0 && p < |d| && p % 4 == 0 && Holds(d, p, es)
    ensures TotalLen(es) % 4 == 0
    decreases |es|
  {
    hide EntryAt, Len;
    if es == [] {
    } else {
      EntrySize(d, p, es[0]);
      HoldsAligned(d, Wrap(|d|, p + Len(es[0])), es[1..]);
    }
  }

  lemma {:induction false} HoldsAppend(d: seq<byte>, p: nat, es: seq<Entry>, e: Entry)
    requires p < |d| && Holds(d, p, es) && TotalLen(es) <= |d|
    requires EntryAt(d, Wrap(|d|, p + TotalLen(es)), e)
    ensures Holds(d, p, es + [e])
    decreases |es|
  {
    hide EntryAt, Len;
    if es == [] {
      assert es + [e] == [e];
    } else {
      assert (es + [e])[0] == es[0] && (es + [e])[1..] == es[1..] + [e];
      EntrySize(d, p, es[0]);
      HoldsAppend(d, Wrap(|d|, p + Len(es[0])), es[1..], e);
    }
  }

  lemma {:induction false} HoldsSplit(d: seq<byte>, p: nat, a: seq<Entry>, b: seq<Entry>)
    requires p < |d| && TotalLen(a + b) <= |d| && Holds(d, p, a + b)
    ensures TotalLen(a) <= |d|
    ensures Holds(d, p, a) && Holds(d, Wrap(|d|, p + TotalLen(a)), b)
    decreases |a|
  {
    hide EntryAt, Len;
    TotalLenConcat(a, b);
    if a == [] {
      assert a + b == b;
    } else {
      assert (a + b)[1..] == a[1..] + b;
      EntrySize(d, p, a[0]);
      HoldsSplit(d, Wrap(|d|, p + Len(a[0])), a[1..], b);
    }
  }

  /** How far the physical offset @p i lies ahead of @p p, going round. */
  function Ahead(n: nat, p: nat, i: nat): int { if i >= p then i - p else i - p + n }

  /** The tiling only depends on the bytes it covers. */
  lemma {:induction false} HoldsFrame(d: seq<byte>, d': seq<byte>, p: nat, es: seq<Entry>)
    requires |d| == |d'| && p < |d| && TotalLen(es) <= |d| && Holds(d, p, es)
    requires forall i: nat :: i < |d| && Ahead(|d|, p, i) < TotalLen(es) ==> d'[i] == d[i]
    ensures Holds(d', p, es)
    decreases |es|
  {
    if es == [] {
    } else {
      var n := Len(es[0]);
      var p' := Wrap(|d|, p + n);
      assert d'[p..p + n] == d[p..p + n];
      assert es[0].Skip? ==> d'[p..p + 4] == d'[p..p + n][..4] && d[p..p + 4] == d[p..p + n][..4];
      forall i: nat | i < |d| && Ahead(|d|, p', i) < TotalLen(es[1..])
        ensures d'[i] == d[i]
      {
        assert Ahead(|d|, p, i) < TotalLen(es);
      }
      HoldsFrame(d, d', p', es[1..]);
    }
  }

  // ---- stores --------------------------------------------------------------

  /** One indivisible store to the persistent memory. */
  datatype Store =
    | SetByte(i: nat, b: byte)
    | SetTail(v: u32)
    | SetHead(v: u32)
    | SetSeq(v: u32)
    | SetBoots(v: u32)
    | SetMagic(v: u32)
    | SetVersion(v: u32)
    | SetSize(v: u32)

  function Apply(img: Image, s: Store): Image {
    match s
    case SetByte(i, b) => if i < |img.data| then img.(data := img.data[i := b]) else img
    case SetTail(v) => img.(tail := v)
    case SetHead(v) => img.(head := v)
    case SetSeq(v) => img.(seqNo := v)
    case SetBoots(v) => img.(bootCount := v)
    case SetMagic(v) => img.(magic := v)
    case SetVersion(v) => img.(version := v)
    case SetSize(v) => img.(size := v)
  }

  function ApplyAll(img: Image, ss: seq<Store>): Image
    decreases |ss|
  {
    if ss == [] then img else ApplyAll(Apply(img, ss[0]), ss[1..])
  }

  lemma {:induction false} ApplyAllConcat(img: Image, a: seq<Store>, b: seq<Store>)
    ensures ApplyAll(img, a + b) == ApplyAll(ApplyAll(img, a), b)
    decreases |a|
  {
    if a == [] {
      assert a + b == b;
    } else {
      assert (a + b)[1..] == a[1..] + b;
      ApplyAllConcat(Apply(img, a[0]), a[1..], b);
    }
  }

  /** The stores of `ring_put`: the bytes in order, wrapping at the physical end. */
  function PutStores(n: nat, off: u32, bytes: seq<byte>): (ss: seq<Store>)
    requires 0 < n
    ensures |ss| == |bytes|
  {
    seq(|bytes|, k requires 0 <= k < |bytes| => SetByte(Wrap(n, Phys(n, off) + k), bytes[k]))
  }

  /** Bytes placed at physical offset @p p on. */
  ghost function Overwrite(d: seq<byte>, p: nat, bytes: seq<byte>): (d': seq<byte>)
    requires p < |d| && |bytes| <= |d|
    ensures |d'| == |d|
    ensures forall i: nat :: i < |d| ==> d'[i] == if Ahead(|d|, p, i) < |bytes| then bytes[Ahead(|d|, p, i)] else d[i]
  {
    seq(|d|, i requires 0 <= i < |d| => if Ahead(|d|, p, i) < |bytes| then bytes[Ahead(|d|, p, i)] else d[i])
  }

  lemma {:induction false} PutStoresEffect(img: Image, off: u32, bytes: seq<byte>, k: nat)
    requires 0 < |img.data| && |bytes| <= |img.data| && k <= |bytes|
    ensures ApplyAll(img, PutStores(|img.data|, off, bytes)[..k]) ==
            img.(data := Overwrite(img.data, Phys(|img.data|, off), bytes[..k]))
  {
    var n := |img.data|;
    var ss := PutStores(n, off, bytes);
    if k == 0 {
      assert ss[..0] == [] && Overwrite(img.data, Phys(n, off), bytes[..0]) == img.data;
    } else {
      PutStoresEffect(img, off, bytes, k - 1);
      assert ss[..k] == ss[..k - 1] + [ss[k - 1]];
      ApplyAllConcat(img, ss[..k - 1], [ss[k - 1]]);
      var p := Phys(n, off);
      var d1, d2 := Overwrite(img.data, p, bytes[..k - 1]), Overwrite(img.data, p, bytes[..k]);
      var w := Wrap(n, p + k - 1);
      assert d1[w := bytes[k - 1]] == d2;
    }
  }
}
