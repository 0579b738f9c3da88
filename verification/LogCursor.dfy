/** The dmesg cursor as the code keeps it: two 32-bit words compared by their signed
    difference (svc/log.c). A whole pass on these words is the pass on never-wrapping offsets,
    exactly as long as the tail is at most 2^31 past the cursor. */
module LogCursor {
  import opened Machine
  import opened LogRecord
  import opened LogRing
  import opened LogAppend
  import opened LogBoot
  import opened LogRuns
  import opened LogIter

  // ---- one turn of the loop -------------------------------------------------------

  /** How a turn ends: the call stops without a record, passes over a SKIP, or finds the
      record at @p at; @p pos is the cursor afterwards. */
  datatype Turn = Stopped(pos: nat) | Passed(pos: nat) | Found(at: nat, pos: nat)

  function Resync32(pos: u32, tail: u32): u32 { if Signed32(Sub32(pos, tail)) < 0 then tail else pos }

  /** One turn of the loop of `log_iter_next`, whatever the memory holds. */
  function Turn32(img: Image, pos: u32, end: u32): (t: Turn)
    requires 4 <= |img.data|
    ensures t.pos < TWO32 && (t.Found? ==> t.at < TWO32)
  {
    var p := Resync32(pos, img.tail);
    if Signed32(Sub32(p, end)) >= 0 then Stopped(p)
    else
      var w0 := WordAt(img, p);
      if !WalkOk(w0, Phys(|img.data|, p), |img.data|) then Stopped(p)
      else if Level(w0) == LEVEL_SKIP then Passed(Add32(p, Total(w0)))
      else Found(p, Add32(p, Total(w0)))
  }

  /** The entry that starts at offset @p p. */
  function EntryFrom(es: seq<Entry>, at: nat, p: nat): Option<Entry>
    decreases |es|
  {
    if es == [] then None else if p == at then Some(es[0]) else EntryFrom(es[1..], at + Len(es[0]), p)
  }

  /** The turn on never-wrapping offsets. */
  function TurnOf(q: Queue, at: nat, end: nat): Turn {
    var p := Max(at, q.base);
    if p >= end then Stopped(p)
    else
      match EntryFrom(q.entries, q.base, p)
      case Some(Skip(n)) => Passed(p + n)
      case Some(Rec(r)) => Found(p, p + RecLen(r))
      case None => Stopped(p)
  }

  /** The 32-bit words of a turn's offsets. */
  function Words(t: Turn): Turn {
    match t
    case Stopped(p) => Stopped(p % TWO32)
    case Passed(p) => Passed(p % TWO32)
    case Found(a, p) => Found(a % TWO32, p % TWO32)
  }

  /** A cursor of a pass whose snapshot ended at @p end: behind the tail or between two
      entries, and not 2^31 past the end. */
  ghost predicate Standing(q: Queue, at: nat, end: nat) {
    end <= End(q) && (at <= q.base || Boundary(q, at)) && at < end + TWO31
  }

  /** The tail is near enough for the signed differences to decide rightly. */
  predicate Near(q: Queue, at: nat, end: nat) { q.base <= at + TWO31 && q.base < end + TWO31 }

  ghost predicate CursorOk(q: Queue, at: nat, end: nat) { Standing(q, at, end) && Near(q, at, end) }

  lemma BoundaryRange(q: Queue, at: nat)
    ensures Boundary(q, at) ==> q.base <= at <= End(q)
    ensures Boundary(q, q.base)
  {
    assert TotalLen(q.entries[..0]) == 0;
    if Boundary(q, at) {
      var i: nat :| i <= |q.entries| && at == q.base + TotalLen(q.entries[..i]);
      TotalLenTake(q.entries, i, i);
    }
  }

  lemma {:induction false} EntryFromSplit(es: seq<Entry>, at: nat, i: nat)
    requires i < |es| && Positive(es)
    ensures EntryFrom(es, at, at + TotalLen(es[..i])) == Some(es[i])
    decreases i
  {
    if i == 0 {
    } else {
      assert es[..i][1..] == es[1..][..i - 1] && es[..i][0] == es[0];
      assert es[0] in es && Len(es[0]) > 0;
      EntryFromSplit(es[1..], at + Len(es[0]), i - 1);
    }
  }

  /** Below the snapshot's end the cursor stands on an entry of the queue, which decides
      what the search does next. */
  lemma IterTurn(img: Image, q: Queue, at: nat, end: nat) returns (e: Entry)
    requires Rep(img, q) && Boundary(q, at) && at < end <= End(q)
    ensures EntryAt(img.data, Phys(|img.data|, at), e) && EntryFrom(q.entries, q.base, at) == Some(e)
    ensures Boundary(q, at + Len(e)) && at + Len(e) <= End(q)
    ensures IterNext(q, at, end) ==
            match e
            case Skip(_) => IterNext(q, at + Len(e), end)
            case Rec(r) => (at + Len(e), Some(r))
  {
    hide EntryAt, Phys, TotalLen, EntryFrom;
    var es := q.entries;
    var i: nat :| i <= |es| && at == q.base + TotalLen(es[..i]);
    assert es[..|es|] == es;
    e := es[i];
    TotalLenNext(es, i);
    assert es == es[..i] + es[i..];
    HoldsSplit(img.data, Phys(|img.data|, q.base), es[..i], es[i..]);
    PhysAdd(|img.data|, q.base, TotalLen(es[..i]));
    HoldsPositive(img.data, Phys(|img.data|, q.base), es);
    EntryFromSplit(es, q.base, i);
    FindSkips(es, q.base, i, end);
    TotalLenNext(es, i);
    FindSkips(es, q.base, i + 1, end);
    assert es[i..][1..] == es[i + 1..];
  }

  /** What the code reads where the cursor stands. */
  lemma IterLook(img: Image, q: Queue, at: nat, end: nat) returns (e: Entry)
    requires Rep(img, q) && Boundary(q, at) && at < end <= End(q)
    ensures 4 <= |img.data| && EntryAt(img.data, Phys(|img.data|, at % TWO32), e)
    ensures EntryFrom(q.entries, q.base, at) == Some(e)
    ensures Boundary(q, at + Len(e)) && 4 <= Len(e) < TWO16 && Len(e) % 4 == 0 && at + Len(e) <= End(q)
    ensures Add32(at % TWO32, Len(e)) == (at + Len(e)) % TWO32
    ensures IterNext(q, at, end) ==
            match e
            case Skip(_) => IterNext(q, at + Len(e), end)
            case Rec(r) => (at + Len(e), Some(r))
    ensures var w := WordAt(img, at % TWO32);
            Total(w) == Len(e) && (Level(w) == LEVEL_SKIP) == e.Skip? && WalkOk(w, Phys(|img.data|, at % TWO32), |img.data|)
  {
    hide Rep, Boundary, IterNext, Phys, EntryFrom, EntryAt, WordAt, Level, Total, WalkOk, End, Geometry;
    RepBounds(img, q);
    RepGeometry(img, q);
    e := IterTurn(img, q, at, end);
    EntryRead(img, at, e);
    EntryWalks(img, at, e);
    PhysThroughWord(|img.data|, at);
    WordOffsets(at, Len(e));
    LevelTells(img.data, Phys(|img.data|, at), e);
  }

  lemma RepGeometry(img: Image, q: Queue)
    requires Rep(img, q)
    ensures Geometry(|img.data|) && Phys(|img.data|, TWO32) == 0
  {
  }

  lemma LevelTells(d: seq<byte>, p: nat, e: Entry)
    requires EntryAt(d, p, e)
    ensures (LevelOf(e) == LEVEL_SKIP) == e.Skip?
  {
  }

  /** The live bytes and the snapshot span less than 2^31. */
  lemma Ranges(img: Image, q: Queue, at: nat, end: nat)
    requires Rep(img, q) && Standing(q, at, end)
    ensures at < q.base + TWO31 && end <= End(q) < q.base + TWO31 && 4 <= |img.data|
    ensures img.tail == q.base % TWO32
    ensures Boundary(q, Max(at, q.base)) && q.base <= Max(at, q.base)
  {
    hide Holds;
    BoundaryRange(q, at);
  }

  /** The two signed comparisons. */
  lemma Signs(base: nat, at: nat, end: nat)
    requires at < base + TWO31 && end < base + TWO31 && at < end + TWO31
    requires base <= at + TWO31 && base < end + TWO31
    ensures Signed32(Sub32(at % TWO32, base % TWO32)) < 0 <==> at < base
    ensures Signed32(Sub32(Max(at, base) % TWO32, end % TWO32)) >= 0 <==> Max(at, base) >= end
  {
    SignedOrder(at, base);
    SignedOrder(Max(at, base), end);
  }

  /** Both turns stop where the cursor, brought up to the tail, has reached the end. */
  lemma TurnStops(img: Image, q: Queue, at: nat, end: nat)
    requires 4 <= |img.data| && Resync32(at % TWO32, img.tail) == Max(at, q.base) % TWO32 && Max(at, q.base) >= end
    requires Signed32(Sub32(Max(at, q.base) % TWO32, end % TWO32)) >= 0
    ensures Turn32(img, at % TWO32, end % TWO32) == Words(TurnOf(q, at, end))
  {
    hide Signed32, Sub32, Resync32, Max;
  }

  /** Both turns read the same entry before the end. */
  lemma TurnReads(img: Image, q: Queue, at: nat, end: nat, e: Entry)
    requires 4 <= |img.data| && Resync32(at % TWO32, img.tail) == Max(at, q.base) % TWO32 && Max(at, q.base) < end
    requires Signed32(Sub32(Max(at, q.base) % TWO32, end % TWO32)) < 0
    requires var p := Max(at, q.base); var w := WordAt(img, p % TWO32);
             && EntryFrom(q.entries, q.base, p) == Some(e) && Len(e) < TWO16
             && Add32(p % TWO32, Len(e)) == (p + Len(e)) % TWO32
             && Total(w) == Len(e) && (Level(w) == LEVEL_SKIP) == e.Skip?
             && WalkOk(w, Phys(|img.data|, p % TWO32), |img.data|)
    ensures Turn32(img, at % TWO32, end % TWO32) == Words(TurnOf(q, at, end))
  {
    hide Signed32, Sub32, Add32, Resync32, Max, WordAt, WalkOk, Phys, EntryFrom, Level, Total, RecLen;
    match e
    case Skip(n) =>
    case Rec(r) => assert Len(e) == RecLen(r);
  }

  /** With the tail near, a turn on the 32-bit words is the turn on the offsets. */
  lemma TurnAgrees(img: Image, q: Queue, at: nat, end: nat)
    requires Rep(img, q) && CursorOk(q, at, end)
    ensures 4 <= |img.data| && Turn32(img, at % TWO32, end % TWO32) == Words(TurnOf(q, at, end))
  {
    hide Rep, WordAt, WalkOk, Signed32, Sub32, Add32, Phys, EntryFrom, Level, Total, Boundary, End, Standing, IterNext,
      EntryAt, Turn32, TurnOf;
    Ranges(img, q, at, end);
    assert end <= End(q) && at < end + TWO31 by { StandingRange(q, at, end); }
    Signs(q.base, at, end);
    if Max(at, q.base) < end {
      var e := IterLook(img, q, Max(at, q.base), end);
      TurnReads(img, q, at, end, e);
    } else {
      TurnStops(img, q, at, end);
    }
  }

  lemma StandingRange(q: Queue, at: nat, end: nat)
    requires Standing(q, at, end)
    ensures end <= End(q) && at < end + TWO31
  {
  }

  /** While a pass is in progress, a turn on the 32-bit words is the turn on the offsets if
      and only if the tail is at most 2^31 past the cursor - provided less than 2^32 bytes
      lie between the cursor and the head. */
  lemma TurnExact(img: Image, q: Queue, at: nat, end: nat)
    requires Rep(img, q) && Standing(q, at, end) && at < end && End(q) <= at + TWO32 - TWO16
    ensures 4 <= |img.data|
    ensures Turn32(img, at % TWO32, end % TWO32) == Words(TurnOf(q, at, end)) <==> q.base <= at + TWO31
  {
    Ranges(img, q, at, end);
    if q.base <= at + TWO31 {
      TurnAgrees(img, q, at, end);
    } else {
      hide Rep, WordAt, WalkOk, Phys, Level, Total, Boundary, Standing;
      assert Resync32(at % TWO32, img.tail) == at % TWO32 by { SignedOrder(at, q.base); }
      if q.base < end { var e := IterLook(img, q, q.base, end); }
      TurnsDiffer(Turn32(img, at % TWO32, end % TWO32), TurnOf(q, at, end), at, q.base, End(q));
    }
  }

  /** Cursors that far apart cannot agree modulo 2^32. */
  lemma TurnsDiffer(t: Turn, u: Turn, at: nat, base: nat, last: nat)
    requires at + TWO31 < base <= last <= at + TWO32 - TWO16
    requires match t
             case Stopped(p) => p == at % TWO32
             case Passed(p) => exists n: u16 :: p == Add32(at % TWO32, n)
             case Found(a, p) => a == at % TWO32
    requires match u
             case Stopped(p) => p == base
             case Passed(p) => base <= p <= last
             case Found(a, p) => a == base
    ensures t != Words(u)
  {
    if t.Passed? && u.Passed? {
      var n: u16 :| t.pos == Add32(at % TWO32, n);
      WordOffsets(at, n);
      SameWord(at + n, u.pos);
    } else {
      SameWord(at, base);
    }
  }

  // ---- one call -------------------------------------------------------------------------

  /** What a call leaves: the cursor, and the offset of the record it copies out. */
  datatype Call = Call(pos: nat, got: Option<u32>)

  /** `log_iter_next` on the words, for at most @p turns turns. */
  function Next32(img: Image, pos: u32, end: u32, turns: nat): (c: Call)
    requires 4 <= |img.data|
    ensures c.pos < TWO32
    decreases turns
  {
    if turns == 0 then Call(pos, None)
    else
      match Turn32(img, pos, end)
      case Stopped(p) => Call(p, None)
      case Found(a, p) => Call(p, Some(a))
      case Passed(p) => Next32(img, p, end, turns - 1)
  }

  /** A turn moves the search on and leaves the cursor well placed. */
  lemma TurnStep(img: Image, q: Queue, at: nat, end: nat) returns (r: Option<Record>)
    requires Rep(img, q) && CursorOk(q, at, end)
    ensures match TurnOf(q, at, end)
            case Stopped(p) => IterNext(q, at, end) == (p, None) && p == Max(at, q.base) >= end && CursorOk(q, p, end)
            case Passed(p) => IterNext(q, at, end) == IterNext(q, p, end) && Max(at, q.base) < p && q.base < end
                              && Max(at, q.base) < end && CursorOk(q, p, end)
            case Found(a, p) => r.Some? && IterNext(q, at, end) == (p, r) && CursorOk(q, p, end) && a == Max(at, q.base) < end
                                && 0 < |img.data| && EntryAt(img.data, Phys(|img.data|, a % TWO32), Rec(r.value))
  {
    Ranges(img, q, at, end);
    var p := Max(at, q.base);
    assert IterNext(q, at, end) == IterNext(q, p, end);
    r := None;
    if p >= end {
      FindPast(q.entries, q.base, p, end);
    } else {
      hide Rep, EntryFrom, IterNext, Phys, EntryAt, WordAt, WalkOk, Level, Total, Boundary, End, Add32;
      var e := IterLook(img, q, p, end);
      if e.Rec? { r := Some(e.record); }
    }
  }

  /** The call on the words is the search on the offsets, and the cursor stays on a boundary
      or behind the tail. */
  lemma {:induction false} CallAgrees(img: Image, q: Queue, at: nat, end: nat, turns: nat)
    requires Rep(img, q) && CursorOk(q, at, end) && turns > (if Max(at, q.base) < end then end - Max(at, q.base) else 0)
    ensures 4 <= |img.data|
    ensures var c := Next32(img, at % TWO32, end % TWO32, turns);
            var (next, found) := IterNext(q, at, end);
            && CursorOk(q, next, end) && c.pos == next % TWO32 && c.got.Some? == found.Some?
            && (found.Some? ==> EntryAt(img.data, Phys(|img.data|, c.got.value), Rec(found.value)))
    decreases turns
  {
    hide Rep, TurnOf, Turn32, IterNext, CursorOk, EntryAt, Phys;
    TurnAgrees(img, q, at, end);
    var r := TurnStep(img, q, at, end);
    match TurnOf(q, at, end)
    case Passed(p) => CallAgrees(img, q, p, end, turns - 1);
    case _ =>
  }

  /** More turns than a call on a good ring can take. */
  const TURNS: nat := TWO32

  // ---- whether a call ends, on any memory ------------------------------------------------

  /** A call from @p pos ends within @p turns turns. */
  predicate Ends(img: Image, pos: u32, end: u32, turns: nat)
    requires 4 <= |img.data|
    decreases turns
  {
    turns > 0 &&
    match Turn32(img, pos, end)
    case Passed(p) => Ends(img, p, end, turns - 1)
    case _ => true
  }

  /** The end is ahead of the tail by at most 2^31 less the length of an entry, or behind it. */
  predicate InReach(tail: u32, end: u32) {
    Sub32(end, tail) <= TWO31 - TWO16 || Sub32(end, tail) > TWO31
  }

  /** How far a call can still go: up to the end ahead of the tail, or for a cursor left beyond
      an end that the tail has passed, up to the point where it counts as behind the tail. */
  function Left(tail: u32, pos: u32, end: u32): nat {
    var d, x := Sub32(end, tail), Sub32(Resync32(pos, tail), tail);
    if d <= TWO31 then (if x < d then d - x else 0)
    else if d - TWO31 <= x < TWO31 then TWO31 - x
    else 0
  }

  /** Passing over a SKIP shortens the way left. */
  lemma TurnShrinks(img: Image, pos: u32, end: u32)
    requires 4 <= |img.data| && InReach(img.tail, end)
    ensures match Turn32(img, pos, end)
            case Passed(p) => Left(img.tail, p, end) < Left(img.tail, pos, end)
            case _ => true
  {
    hide WordAt, WalkOk, Level, Total, Phys;
    var p := Resync32(pos, img.tail);
    var w0 := WordAt(img, p);
    if Signed32(Sub32(p, end)) < 0 && WalkOk(w0, Phys(|img.data|, p), |img.data|) {
      OkIsLong(w0, Phys(|img.data|, p), |img.data|);
      StepShrinks(img.tail, pos, end, Total(w0));
    }
  }

  lemma StepShrinks(tail: u32, pos: u32, end: u32, total: u16)
    requires InReach(tail, end) && total > 0 && Signed32(Sub32(Resync32(pos, tail), end)) < 0
    ensures Left(tail, Add32(Resync32(pos, tail), total), end) < Left(tail, pos, end)
  {
  }

  /** On any memory a call ends if the snapshot's end is in reach of the tail. */
  lemma {:induction false} CallEnds(img: Image, pos: u32, end: u32, turns: nat)
    requires 4 <= |img.data| && InReach(img.tail, end) && turns > Left(img.tail, pos, end)
    ensures Ends(img, pos, end, turns)
    decreases turns
  {
    hide Turn32, InReach, Left;
    TurnShrinks(img, pos, end);
    match Turn32(img, pos, end)
    case Passed(p) => CallEnds(img, p, end, turns - 1);
    case _ =>
  }

  /** So it does at the start of a pass over a ring that boot would keep, whatever lies
      between its tail and its head ... */
  lemma StartInReach(img: Image)
    requires HeaderValid(img) && img.size <= 0x4000_0000
    ensures InReach(img.tail, img.head)
  {
  }

  /** ... and later, while the tail is near. */
  lemma NearInReach(img: Image, q: Queue, at: nat, end: nat)
    requires Rep(img, q) && CursorOk(q, at, end)
    ensures InReach(img.tail, end % TWO32)
  {
    hide Holds, Geometry, TotalLen;
    StandingRange(q, at, end);
    RepBounds(img, q);
    if end >= q.base {
      WordOffsets(q.base, end - q.base);
    } else {
      BehindBy(q.base, end);
    }
  }

  lemma BehindBy(a: nat, b: nat)
    requires b < a < b + TWO31
    ensures Sub32(b % TWO32, a % TWO32) > TWO31
  {
    WordOffsets(b, a - b);
  }

  // ---- a call that never ends ------------------------------------------------------------

  /** The smallest ring with nothing but SKIPs in it: one over the whole of it, one over its
      second half, at which the tail stands. */
  function SkipRing(): (img: Image)
    ensures |img.data| == 256 && img.tail == 128
  {
    Image(LOG_MAGIC, LOG_VERSION, 256, 128 + TWO31, 128, 0, 1,
          Lead(256, LEVEL_SKIP) + Zeros(124) + Lead(128, LEVEL_SKIP) + Zeros(124))
  }

  /** The cursors such a call goes through. */
  predicate Circling(pos: u32) { pos == 128 || pos % 256 == 0 }

  lemma SkipRead(pos: u32, total: u16)
    requires (pos % 256 == 0 && total == 256) || (pos == 128 && total == 128)
    ensures var img := SkipRing(); var w0 := WordAt(img, pos);
            WalkOk(w0, Phys(256, pos), 256) && Level(w0) == LEVEL_SKIP && Total(w0) == total
  {
    hide WordAt, WalkOk, Level, Total, Phys, Lead;
    PhysIsMod(256, TWO32);
    PhysIsMod(256, pos);
    var d := SkipRing().data;
    assert d[0..4] == Lead(256, LEVEL_SKIP) && d[128..132] == Lead(128, LEVEL_SKIP);
    EntryRead(SkipRing(), pos, Skip(total));
    EntryWalks(SkipRing(), pos, Skip(total));
  }

  lemma CirclingTurn(pos: u32)
    requires Circling(pos)
    ensures var t := Turn32(SkipRing(), pos, 128 + TWO31); t.Passed? && t.pos < TWO32 && Circling(t.pos)
  {
    hide WordAt, WalkOk, Level, Total, Phys, SkipRing;
    var p := Resync32(pos, 128);
    SkipRead(p, if p == 128 then 128 else 256);
    assert Signed32(Sub32(p, 128 + TWO31)) < 0;
    assert Circling(Add32(p, if p == 128 then 128 else 256));
  }

  lemma {:induction false} CirclesOn(pos: u32, turns: nat)
    requires Circling(pos)
    ensures !Ends(SkipRing(), pos, 128 + TWO31, turns)
    decreases turns
  {
    hide Turn32, SkipRing, Circling;
    if turns == 0 {
    } else {
      CirclingTurn(pos);
      CirclesOn(Turn32(SkipRing(), pos, 128 + TWO31).pos, turns - 1);
    }
  }

  /** Out of reach a call need not end: with the end 2^31 past the tail, the cursor passes over
      SKIPs until it counts as behind the tail, is brought back to it, and so on. */
  lemma CallNeedNotEnd(turns: nat)
    ensures var img := SkipRing(); !InReach(img.tail, img.head) && !Ends(img, img.tail, img.head, turns)
  {
    hide Turn32, Ends;
    CirclesOn(128, turns);
  }

  lemma EnoughTurns(img: Image, q: Queue, at: nat, end: nat)
    requires Rep(img, q) && Standing(q, at, end)
    ensures TURNS > (if Max(at, q.base) < end then end - Max(at, q.base) else 0)
  {
    Ranges(img, q, at, end);
  }

  lemma EnoughTurnsOk(img: Image, q: Queue, at: nat, end: nat)
    requires Rep(img, q) && CursorOk(q, at, end)
    ensures TURNS > (if Max(at, q.base) < end then end - Max(at, q.base) else 0)
  {
    hide Rep, Standing;
    EnoughTurns(img, q, at, end);
  }

  lemma LeftBounded(tail: u32, pos: u32, end: u32)
    ensures Left(tail, pos, end) <= TWO31 < TURNS
  {
  }

  // ---- what the caller sees ----------------------------------------------------------------

  /** What the code copies out of the ring for a record at @p off, into a caller's buffer that
      held @p prev. */
  function ShownAt(d: seq<byte>, off: u32, prev: seq<byte>): Shown
    requires 2 * REC_MAX <= |d| && |prev| == MSG_MAX + 1
  {
    var h := RingBytes(d, off, HDR_SIZE);
    var total := Total(FromLe32(RingBytes(d, off, 4)));
    var tlen := if total < HDR_SIZE then 0 else Min(total - HDR_SIZE, MSG_MAX + 1);
    var text := RingBytes(d, Add32(off, HDR_SIZE), tlen);
    Shown(FromLe32(h[4..8]), FromLe32(h[8..12]), h[2], h[12..20] + [0], (text + prev[tlen..])[MSG_MAX := 0])
  }

  /** The bytes a reader copies out of a stored record. */
  lemma HeaderRead(d: seq<byte>, off: u32, r: Record)
    requires Geometry(|d|) && EntryAt(d, Phys(|d|, off), Rec(r))
    ensures var h := RingBytes(d, off, HDR_SIZE);
            FromLe32(h[4..8]) == r.ts && FromLe32(h[8..12]) == r.seqNo && h[2] == r.level && h[12..20] == r.tag
  {
    var p := Phys(|d|, off);
    assert d[p..p + HDR_SIZE] == d[p..p + RecLen(r)][..HDR_SIZE] == EncodeHeader(r);
    hide Phys, Geometry, EntryAt;
    RingSlice(d, off, HDR_SIZE);
    HeaderFields(r);
  }

  lemma FourFields(a: seq<byte>, b: seq<byte>, c: seq<byte>, t: seq<byte>)
    requires |a| == |b| == |c| == 4 && |t| == 8
    ensures var h := a + b + c + t;
            h[2] == a[2] && h[4..8] == b && h[8..12] == c && h[12..20] == t
  {
  }

  lemma HeaderFields(r: Record)
    requires RecordOk(r)
    ensures var h := EncodeHeader(r);
            FromLe32(h[4..8]) == r.ts && FromLe32(h[8..12]) == r.seqNo && h[2] == r.level && h[12..20] == r.tag
  {
    hide Lead, Le32, FromLe32;
    FourFields(Lead(RecLen(r), r.level), Le32(r.ts), Le32(r.seqNo), r.tag);
    Le32RoundTrip(r.ts);
    Le32RoundTrip(r.seqNo);
  }

  lemma SliceOfSlice(d: seq<byte>, p: nat, n: nat, h: seq<byte>, b: seq<byte>, t: nat)
    requires p + n <= |d| && d[p..p + n] == h + b && t <= |b|
    ensures d[p + |h|..p + |h| + t] == b[..t]
  {
    forall k | 0 <= k < t ensures d[p + |h|..p + |h| + t][k] == b[k] {
      assert d[p..p + n][|h| + k] == (h + b)[|h| + k];
    }
  }

  lemma TextRead(d: seq<byte>, off: u32, r: Record, t: nat)
    requires Geometry(|d|) && EntryAt(d, Phys(|d|, off), Rec(r)) && t <= |r.body|
    ensures RingBytes(d, Add32(off, HDR_SIZE), t) == r.body[..t]
  {
    var p := Phys(|d|, off);
    assert d[p..p + RecLen(r)] == EncodeHeader(r) + r.body;
    hide Phys, EntryAt, EncodeHeader, Geometry;
    SliceOfSlice(d, p, RecLen(r), EncodeHeader(r), r.body, t);
    PhysAddWord(|d|, off, HDR_SIZE);
    RingSlice(d, Add32(off, HDR_SIZE), t);
  }


  lemma PhysAddWord(n: nat, h: u32, k: nat)
    requires Geometry(n) && k <= n
    ensures Phys(n, Add32(h, k)) == Wrap(n, Phys(n, h) + k)
  {
    PhysAdd(n, h, k);
    PhysThroughWord(n, h + k);
  }

  /** What is copied out is what the stored record shows. */
  lemma ShownIsShow(d: seq<byte>, off: u32, r: Record, prev: seq<byte>)
    requires Geometry(|d|) && EntryAt(d, Phys(|d|, off), Rec(r)) && |prev| == MSG_MAX + 1
    ensures RecordOk(r) && ShownAt(d, off, prev) == Show(r, prev)
  {
    LeadStored(d, Phys(|d|, off), Rec(r));
    RingSlice(d, off, 4);
    LeadFields(RecLen(r), r.level);
    hide Phys, EntryAt, Total, FromLe32, Lead, Geometry;
    HeaderRead(d, off, r);
    TextRead(d, off, r, Min(RecLen(r) - HDR_SIZE, MSG_MAX + 1));
  }

  // ---- a whole pass ----------------------------------------------------------------------

  /** A pass on the 32-bit words: what the calls of the events copy out. */
  ghost function Pass32(w: World, pos: u32, end: u32, prev: seq<byte>, evs: seq<Event>): seq<Shown>
    requires Good(w) && EventsOk(evs) && |prev| == MSG_MAX + 1
    decreases |evs|
  {
    if evs == [] then []
    else
      match evs[0]
      case Change(s) => StepKeeps(w, s); Pass32(NextWorld(w, s), pos, end, prev, evs[1..])
      case Next =>
        GoodSize(w);
        var c := Next32(w.img, pos, end, TURNS);
        (if c.got.Some? then [ShownAt(w.img.data, c.got.value, prev)] else []) +
        Pass32(w, c.pos, end, prev, evs[1..])
  }

  lemma GoodSize(w: World)
    requires Good(w)
    ensures Rep(w.img, w.q) && 2 * REC_MAX <= |w.img.data| && Geometry(|w.img.data|)
  {
  }

  /** At each call of the pass the tail is near the cursor. */
  ghost predicate NearThroughout(w: World, pos: nat, end: nat, evs: seq<Event>)
    requires Good(w) && EventsOk(evs)
    decreases |evs|
  {
    evs == [] ||
    match evs[0]
    case Change(s) => StepKeeps(w, s); NearThroughout(NextWorld(w, s), pos, end, evs[1..])
    case Next => Near(w.q, pos, end) && NearThroughout(w, IterNext(w.q, pos, end).0, end, evs[1..])
  }

  /** The buffers show exactly these records, in order. */
  ghost predicate AllShown(out: seq<Shown>, rs: seq<Record>, prev: seq<byte>)
    requires |prev| == MSG_MAX + 1
  {
    |out| == |rs| && forall k :: 0 <= k < |rs| ==> RecordOk(rs[k]) && out[k] == Show(rs[k], prev)
  }

  /** However the queue evolves, the cursor stays behind the tail or between two entries. */
  lemma StandingCarries(q0: Queue, q: Queue, at: nat, end: nat)
    requires Standing(q0, at, end) && Evolves(q0, q)
    ensures Standing(q, at, end)
  {
    BoundaryRange(q0, at);
    if at > q.base {
      var i: nat :| i <= |q0.entries| && at == q0.base + TotalLen(q0.entries[..i]);
      if q.base < End(q0) {
        var j: nat :| Kept(q0, q, j);
        BoundaryKept(q0, q, i, j);
      }
    }
  }

  lemma BoundaryKept(q0: Queue, q: Queue, i: nat, j: nat)
    requires Kept(q0, q, j) && i <= |q0.entries| && q0.base + TotalLen(q0.entries[..i]) > q.base
    ensures Boundary(q, q0.base + TotalLen(q0.entries[..i]))
  {
    if i < j {
      TotalLenTake(q0.entries, i, j);
    } else {
      TotalLenTake(q0.entries, j, i);
      assert q0.entries[j..i] == q0.entries[j..][..i - j] == q.entries[..i - j];
    }
  }

  /** A whole pass on the 32-bit words copies out exactly what the pass on the offsets
      returns, while the tail is near at each call. */
  lemma {:induction false} PassAgrees(w: World, at: nat, end: nat, prev: seq<byte>, evs: seq<Event>)
    requires Good(w) && EventsOk(evs) && |prev| == MSG_MAX + 1
    requires Standing(w.q, at, end) && NearThroughout(w, at, end, evs)
    ensures AllShown(Pass32(w, at % TWO32, end % TWO32, prev, evs), Pass(w, at, end, evs), prev)
    decreases |evs|
  {
    hide Good, Standing, Near, NextWorld, Next32, IterNext, Show, ShownAt, Evolves, OpOk, EntryAt, Phys, Geometry;
    if evs == [] {
    } else {
      match evs[0]
      case Change(s) =>
        StepKeeps(w, s);
        StepEvolves(w, s);
        StandingCarries(w.q, NextWorld(w, s).q, at, end);
        PassAgrees(NextWorld(w, s), at, end, prev, evs[1..]);
      case Next =>
        GoodSize(w);
        EnoughTurns(w.img, w.q, at, end);
        CallAgrees(w.img, w.q, at, end, TURNS);
        var c, found := Next32(w.img, at % TWO32, end % TWO32, TURNS), IterNext(w.q, at, end).1;
        if found.Some? { ShownIsShow(w.img.data, c.got.value, found.value, prev); }
        PassAgrees(w, IterNext(w.q, at, end).0, end, prev, evs[1..]);
    }
  }

  /** A dmesg pass as the code runs it, from `log_iter_start` on: while the tail is near at
      each call it copies out, in order and without duplicates, records that were present at
      the start. */
  lemma DmesgPass32(w: World, prev: seq<byte>, evs: seq<Event>) returns (idx: seq<nat>)
    requires Good(w) && EventsOk(evs) && |prev| == MSG_MAX + 1 && NearThroughout(w, w.q.base, End(w.q), evs)
    ensures var rs := Pass(w, w.q.base, End(w.q), evs);
            && Picked(rs, w.q.entries, 0, idx)
            && AllShown(Pass32(w, w.img.tail, w.img.head, prev, evs), rs, prev)
  {
    hide Pass, Pass32, NearThroughout, Picked;
    GoodSize(w);
    BoundaryRange(w.q, w.q.base);
    PassAgrees(w, w.q.base, End(w.q), prev, evs);
    idx := DmesgPass(w, evs);
  }

  // ---- when the tail is near -------------------------------------------------------------

  ghost function After(w: World, evs: seq<Event>): World
    requires Good(w) && EventsOk(evs)
    ensures Good(After(w, evs))
    decreases |evs|
  {
    if evs == [] then w
    else
      match evs[0]
      case Change(s) => StepKeeps(w, s); After(NextWorld(w, s), evs[1..])
      case Next => After(w, evs[1..])
  }

  lemma {:induction false} EndGrows(w: World, evs: seq<Event>)
    requires Good(w) && EventsOk(evs)
    ensures End(w.q) <= End(After(w, evs).q)
    decreases |evs|
  {
    hide Good, NextWorld, End, OpOk;
    if evs == [] {
    } else {
      match evs[0]
      case Change(s) =>
        StepKeeps(w, s);
        StepEvolves(w, s);
        EndGrows(NextWorld(w, s), evs[1..]);
      case Next => EndGrows(w, evs[1..]);
    }
  }

  lemma IterNextForward(q: Queue, at: nat, end: nat)
    ensures IterNext(q, at, end).0 >= at
  {
    FindForward(q.entries, q.base, Max(at, q.base), end);
  }

  lemma {:induction false} FindForward(es: seq<Entry>, at: nat, pos: nat, end: nat)
    ensures Find(es, at, pos, end).0 >= pos
    decreases |es|
  {
    if pos >= end || es == [] {
    } else {
      if pos > at {
        FindForward(es[1..], at + Len(es[0]), pos, end);
      } else if es[0].Skip? {
        FindForward(es[1..], at + es[0].size, at + es[0].size, end);
      }
    }
  }

  /** Live bytes at the start plus bytes appended during the pass, if fewer than 2^31, keep
      the tail near. */
  lemma {:induction false} FewBytesKeepNear(w: World, at: nat, end: nat, evs: seq<Event>)
    requires Good(w) && EventsOk(evs) && End(After(w, evs).q) < at + TWO31 && End(After(w, evs).q) < end + TWO31
    ensures NearThroughout(w, at, end, evs)
    decreases |evs|
  {
    hide Good, NextWorld, IterNext, OpOk;
    if evs == [] {
    } else {
      match evs[0]
      case Change(s) =>
        StepKeeps(w, s);
        FewBytesKeepNear(NextWorld(w, s), at, end, evs[1..]);
      case Next =>
        EndGrows(w, evs);
        IterNextForward(w.q, at, end);
        FewBytesKeepNear(w, IterNext(w.q, at, end).0, end, evs[1..]);
    }
  }

  // ---- a pass that goes wrong ----------------------------------------------------------------

  /** A write of the largest record, carried through. */
  const FILLER := Step(Write(0, 0, [], Zeros(MSG_MAX)), 1000)

  /** The smallest ring after @p k such writes. */
  ghost function Filled(k: nat): (w: World)
    ensures Good(w)
  {
    if k == 0 then
      PhysIsMod(256, TWO32);
      FreshGood(256);
      World(Fresh(256), Queue(0, []), [], 0)
    else
      StepKeeps(Filled(k - 1), FILLER);
      NextWorld(Filled(k - 1), FILLER)
  }

  /** The @p i-th of them. */
  function Filler(i: nat): Record { MakeRecord(0, 0, i % TWO32, [], Zeros(MSG_MAX)) }

  lemma FillerOk(i: nat)
    ensures RecordOk(Filler(i)) && RecLen(Filler(i)) == 128 && Filler(i).seqNo == i % TWO32 && Filler(i).level != LEVEL_SKIP
  {
  }

  /** The ring's queue: the last two of @p k records. */
  function LastTwo(k: nat): Queue {
    if k == 0 then Queue(0, [])
    else if k == 1 then Queue(0, [Rec(Filler(0))])
    else Queue(128 * (k - 2), [Rec(Filler(k - 2)), Rec(Filler(k - 1))])
  }

  lemma PairLen(a: Entry, b: Entry)
    ensures TotalLen([a]) == Len(a) && TotalLen([a, b]) == Len(a) + Len(b)
    ensures [a, b][1..] == [b] && [a, b][..1] == [a]
  {
    assert [a][1..] == [] && [b][1..] == [] && [a, b][1..] == [b] && [a, b][..1] == [a];
    assert TotalLen([b]) == Len(b);
  }

  lemma LastTwoEnd(k: nat)
    ensures End(LastTwo(k)) == 128 * k && TotalLen(LastTwo(k).entries) == if k < 2 then 128 * k else 256
  {
    hide Filler, TotalLen;
    NoLength();
    FillerOk(0);
    if k >= 2 {
      FillerOk(k - 2);
      FillerOk(k - 1);
      PairLen(Rec(Filler(k - 2)), Rec(Filler(k - 1)));
    } else {
      PairLen(Rec(Filler(0)), Rec(Filler(0)));
    }
  }

  lemma NoLength()
    ensures TotalLen([]) == 0
  {
  }

  lemma HalfOrNot(k: nat)
    ensures Phys(256, (128 * k) % TWO32) == (128 * k) % 256 && (128 * k) % 256 in {0, 128}
    ensures Phys(256, 128 * k) == (128 * k) % 256
    ensures (128 * k) % 256 == if k % 2 == 0 then 0 else 128
  {
    hide Phys;
    PhysIsMod(256, TWO32);
    PhysThroughWord(256, 128 * k);
    PhysIsMod(256, 128 * k);
    Halves(k);
  }

  lemma Halves(k: nat)
    ensures (128 * k) % 256 == if k % 2 == 0 then 0 else 128
  {
    ModUnique(128 * k, 256, k / 2, if k % 2 == 0 then 0 else 128);
  }

  /** A third record of 128 bytes drops the first of two and needs no SKIP. */
  lemma AppendThird(base: nat, a: Record, b: Record, r: Record)
    requires RecLen(a) == RecLen(b) == RecLen(r) == 128 && Phys(256, (base + 256) % TWO32) in {0, 128}
    ensures var q := Queue(base, [Rec(a), Rec(b)]);
            && Appended(256, q, r) == Queue(base + 128, [Rec(b), Rec(r)])
            && EvictCount(256, q.entries, 128) == 1 && SkipBefore(256, End(q) % TWO32, 128) == 0
  {
    hide Phys, TotalLen, EvictCount;
    var es := [Rec(a), Rec(b)];
    PairLen(Rec(a), Rec(b));
    PairLen(Rec(b), Rec(b));
    EvictOne(es, [Rec(b)]);
    assert [Rec(b)] + [Rec(r)] == [Rec(b), Rec(r)];
  }

  lemma EvictOne(es: seq<Entry>, rest: seq<Entry>)
    requires es != [] && es[1..] == rest && TotalLen(es) == 256 && TotalLen(rest) == 128
    ensures EvictCount(256, es, 128) == 1
  {
  }

  lemma AppendFiller(k: nat)
    ensures Appended(256, LastTwo(k), Filler(k)) == LastTwo(k + 1)
    ensures EvictCount(256, LastTwo(k).entries, 128) <= 1 && SkipBefore(256, End(LastTwo(k)) % TWO32, 128) == 0
  {
    hide Filler, Phys, TotalLen, EvictCount, Appended;
    LastTwoEnd(k);
    HalfOrNot(k);
    FillerOk(k);
    if k >= 2 {
      FillerOk(k - 2);
      FillerOk(k - 1);
      AppendThird(128 * (k - 2), Filler(k - 2), Filler(k - 1), Filler(k));
    } else {
      AppendTo(256, LastTwo(k), Filler(k));
      assert [] + [Rec(Filler(0))] == [Rec(Filler(0))] && [Rec(Filler(0))] + [Rec(Filler(1))] == [Rec(Filler(0)), Rec(Filler(1))];
      FewEvicted(LastTwo(k).entries);
    }
  }

  lemma FewEvicted(es: seq<Entry>)
    requires TotalLen(es) <= 128
    ensures EvictCount(256, es, 128) == 0
  {
  }

  lemma {:induction false} FilledShape(k: nat)
    ensures var w := Filled(k);
            w.q == LastTwo(k) && |w.img.data| == 256 && w.issued == k && w.img.seqNo == k % TWO32
    decreases k
  {
    hide Good, Rep, LastTwo, Filler, NextWorld, Appended, WriteStores;
    if k > 0 {
      FilledShape(k - 1);
      FilledStep(Filled(k - 1), k - 1);
    } else {
      assert LastTwo(0) == Queue(0, []) by { NothingYet(); }
    }
  }

  lemma NothingYet()
    ensures LastTwo(0) == Queue(0, [])
  {
  }

  lemma FilledStep(w: World, k: nat)
    requires Good(w) && w.q == LastTwo(k) && |w.img.data| == 256 && w.issued == k && w.img.seqNo == k % TWO32
    ensures 4 <= |w.img.data| && 2 * REC_MAX <= w.img.size <= TWO31
    ensures var w' := NextWorld(w, FILLER);
            w'.q == LastTwo(k + 1) && |w'.img.data| == 256 && w'.issued == k + 1 && w'.img.seqNo == (k + 1) % TWO32
  {
    hide Good, Rep, LastTwo, Filler, Appended, WriteStores, EvictCount, SkipBefore, ApplyAll, CutQueue, TotalLen, Phys, End;
    StepKeeps(w, FILLER);
    FillerIsRecord(k);
    FillerOk(k);
    AppendFiller(k);
    StoreCount(w, Filler(k));
    WholeWrite(w, FILLER.op, 1000);
    IssuedNext(NextWorld(w, FILLER));
  }

  lemma FillerIsRecord(k: nat)
    ensures OpOk(FILLER.op) && OpRecord(FILLER.op, k % TWO32) == Some(Filler(k))
  {
  }

  lemma IssuedNext(w: World)
    requires Good(w)
    ensures w.img.seqNo == w.issued % TWO32
  {
  }

  /** @p j such writes as events. */
  function Fillers(j: nat): (evs: seq<Event>)
    ensures |evs| == j && EventsOk(evs)
  {
    seq(j, _ => Change(FILLER))
  }

  lemma {:induction false} PassAfterFillers(k: nat, j: nat, pos: nat, end: nat, prev: seq<byte>, evs: seq<Event>)
    requires EventsOk(evs) && |prev| == MSG_MAX + 1
    ensures EventsOk(Fillers(j) + evs)
    ensures Pass(Filled(k), pos, end, Fillers(j) + evs) == Pass(Filled(k + j), pos, end, evs)
    ensures Pass32(Filled(k), pos % TWO32, end % TWO32, prev, Fillers(j) + evs) ==
            Pass32(Filled(k + j), pos % TWO32, end % TWO32, prev, evs)
    ensures After(Filled(k), Fillers(j) + evs) == After(Filled(k + j), evs)
    decreases j
  {
    hide Good, NextWorld, IterNext, Next32, OpOk, ShownAt;
    var all := Fillers(j) + evs;
    if j == 0 {
      assert all == evs;
    } else {
      assert all[1..] == Fillers(j - 1) + evs && all[0] == Change(FILLER);
      PassAfterFillers(k + 1, j - 1, pos, end, prev, evs);
    }
  }

  /** What clearing a filled ring leaves. */
  lemma ClearedRing(k: nat)
    requires k >= 2 && k % 2 == 1
    ensures var w := Filled(k);
            && 4 <= |w.img.data| && 2 * REC_MAX <= w.img.size <= TWO31 && |w.img.data| == 256
            && var w' := NextWorld(w, Step(Clear, 1));
               && Good(w') && w'.q == Queue(128 * k, []) && w'.img == w.img.(tail := (128 * k) % TWO32)
               && EntryAt(w'.img.data, 0, Rec(Filler(k - 1)))
  {
    hide EntryAt, Phys, Filler, ApplyAll, Good, LastTwo;
    var w := Filled(k);
    FilledShape(k);
    LastTwoEnd(k);
    StepKeeps(w, Step(Clear, 1));
    ApplyOne(w.img, SetTail(w.img.head));
    GoodSize(w);
    RepBounds(w.img, w.q);
    SecondAtZero(w.img, k);
  }

  lemma SecondAtZero(img: Image, k: nat)
    requires k >= 2 && k % 2 == 1 && Rep(img, LastTwo(k)) && |img.data| == 256
    ensures EntryAt(img.data, 0, Rec(Filler(k - 1)))
  {
    hide EntryAt, Phys, Filler;
    HalfOrNot(k - 2);
    FillerOk(k - 2);
    var es := LastTwo(k).entries;
    PairLen(es[0], es[1]);
    assert Holds(img.data, Wrap(256, 128 + 128), es[1..]);
  }

  /** A change and then a call. */
  lemma PassTwo(w: World, s: Step, pos: nat, end: nat, prev: seq<byte>)
    requires Good(w) && OpOk(s.op) && |prev| == MSG_MAX + 1
    ensures EventsOk([Change(s), Next])
    ensures 4 <= |w.img.data| && 2 * REC_MAX <= w.img.size <= TWO31 && Good(NextWorld(w, s))
    ensures var w' := NextWorld(w, s);
            && 2 * REC_MAX <= |w'.img.data|
            && After(w, [Change(s), Next]) == w'
            && Pass(w, pos, end, [Change(s), Next]) ==
               (var out := IterNext(w'.q, pos, end).1; if out.Some? then [out.value] else [])
            && Pass32(w, pos % TWO32, end % TWO32, prev, [Change(s), Next]) ==
               (var got := Next32(w'.img, pos % TWO32, end % TWO32, TURNS).got;
                if got.Some? then [ShownAt(w'.img.data, got.value, prev)] else [])
  {
    hide Good, NextWorld, Next32, IterNext, ShownAt, OpOk;
    var two := [Change(s), Next];
    assert two[1..] == [Next] && [Next][1..] == [];
    StepKeeps(w, s);
    GoodSize(NextWorld(w, s));
  }

  /** The bound is needed: fewer than 2^31 bytes appended after the start of a pass, then a
      clear, and the tail is 2^31 + 128 past the cursor. No resynchronisation takes place, the
      cursor reads stale memory, and the call copies out a record that was not in the log when
      the pass started, while nothing of the snapshot is left. */
  lemma FarTailMisleads(prev: seq<byte>)
    requires |prev| == MSG_MAX + 1
    ensures var w := Filled(2);
            var evs := Fillers(0x100_0000 - 1) + [Change(Step(Clear, 1)), Next];
            && EventsOk(evs) && 4 <= |w.img.data| && RecordOk(Filler(0x100_0000))
            && Pass(w, w.q.base, End(w.q), evs) == []
            && Pass32(w, w.img.tail, w.img.head, prev, evs) == [Show(Filler(0x100_0000), prev)]
            && End(After(w, evs).q) - End(w.q) < TWO31
            && Rec(Filler(0x100_0000)) !in w.q.entries
  {
    hide Good, NextWorld, Next32, IterNext, ShownAt, Show, Filler, EntryAt, Pass, Pass32, After, Filled, Fillers, Rep;
    var k := 0x100_0000 + 1;
    StartOfPass();
    ClearedRing(k);
    StaleRead(NextWorld(Filled(k), Step(Clear, 1)), k, prev);
    PassTwo(Filled(k), Step(Clear, 1), 0, 256, prev);
    PassAfterFillers(2, k - 2, 0, 256, prev, [Change(Step(Clear, 1)), Next]);
  }

  lemma StartOfPass()
    ensures var w := Filled(2);
            && 4 <= |w.img.data| && w.img.tail == 0 == w.q.base && w.img.head == 256 == End(w.q)
            && RecordOk(Filler(0x100_0000)) && Rec(Filler(0x100_0000)) !in w.q.entries
  {
    hide Filler, Rep, Filled, Good, LastTwo, End, RecordOk, TotalLen;
    FilledShape(2);
    LastTwoEnd(2);
    GoodSize(Filled(2));
    RepBounds(Filled(2).img, Filled(2).q);
    FillerOk(0x100_0000);
    NotAmongTwo();
  }

  lemma NotAmongTwo()
    ensures LastTwo(2).base == 0 && Rec(Filler(0x100_0000)) !in LastTwo(2).entries
  {
    hide Filler, RecordOk;
    FillerOk(0);
    FillerOk(1);
    FillerOk(0x100_0000);
  }

  /** The call with the tail too far away. */
  lemma StaleRead(w: World, k: nat, prev: seq<byte>)
    requires k == 0x100_0000 + 1 && |prev| == MSG_MAX + 1 && Good(w) && |w.img.data| == 256
    requires w.q == Queue(128 * k, []) && w.img.tail == (128 * k) % TWO32 && EntryAt(w.img.data, 0, Rec(Filler(k - 1)))
    ensures Next32(w.img, 0, 256, TURNS) == Call(128, Some(0))
    ensures RecordOk(Filler(k - 1)) && ShownAt(w.img.data, 0, prev) == Show(Filler(k - 1), prev)
    ensures IterNext(w.q, 0, 256) == (128 * k, None)
  {
    hide Filler, EntryAt, Show, ShownAt, WordAt;
    GoodSize(w);
    FillerOk(k - 1);
    var e := Rec(Filler(k - 1));
    assert Phys(256, 0) == 0;
    EntryRead(w.img, 0, e);
    EntryWalks(w.img, 0, e);
    ShownIsShow(w.img.data, 0, Filler(k - 1), prev);
    assert Turn32(w.img, 0, 256) == Found(0, 128);
  }
}
