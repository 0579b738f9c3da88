/** The frame pipeline as a protocol: critical sections of the producer, of the sinks and of
    pull readers interleave in any order, and `consume` calls happen between them
    (svc/frame_pipeline.c).  Every pin anyone is owed is an explicit token. */
module FrameWorld {
  import opened Machine
  import opened FramePipeline

  // ---- tokens ----------------------------------------------------------------

  /** Owed: a `consume` call for this frame is still to be made; Held: it was made (or the
      pin was taken by `get` or `pin_latest`) and awaits its `put`; Waiting: the pin of a
      sink's pending frame. */
  datatype Stage = Owed | Held | Waiting

  datatype Token = Token(owner: Option<SinkId>, slot: nat, stage: Stage)

  function Count<T>(s: seq<T>, f: T -> bool): nat {
    if s == [] then 0 else (if f(s[0]) then 1 else 0) + Count(s[1..], f)
  }

  function B(b: bool): nat { if b then 1 else 0 }

  lemma {:induction false} CountConcat<T>(a: seq<T>, b: seq<T>, f: T -> bool)
    ensures Count(a + b, f) == Count(a, f) + Count(b, f)
  {
    if a == [] {
      assert a + b == b;
    } else {
      assert (a + b)[1..] == a[1..] + b;
      CountConcat(a[1..], b, f);
    }
  }

  lemma CountPush<T>(s: seq<T>, x: T, f: T -> bool)
    ensures Count(s + [x], f) == Count(s, f) + B(f(x))
  {
    CountConcat(s, [x], f);
    assert [x][1..] == [];
  }

  function Without<T>(s: seq<T>, k: nat): seq<T>
    requires k < |s|
  {
    s[..k] + s[k + 1..]
  }

  lemma CountAt<T>(s: seq<T>, k: nat, x: T, f: T -> bool)
    requires k < |s|
    ensures Count(s, f) == Count(Without(s, k), f) + B(f(s[k]))
    ensures Count(s[k := x], f) == Count(s, f) - B(f(s[k])) + B(f(x))
  {
    assert s == s[..k] + [s[k]] + s[k + 1..] && s[k := x] == s[..k] + [x] + s[k + 1..];
    CountConcat(s[..k] + [s[k]], s[k + 1..], f);
    CountConcat(s[..k] + [x], s[k + 1..], f);
    CountConcat(s[..k], s[k + 1..], f);
    CountPush(s[..k], s[k], f);
    CountPush(s[..k], x, f);
  }

  lemma {:induction false} CountZero<T>(s: seq<T>, f: T -> bool)
    ensures Count(s, f) == 0 <==> forall k :: 0 <= k < |s| ==> !f(s[k])
  {
    if s == [] {
    } else {
      CountZero(s[1..], f);
      assert forall k :: 0 < k < |s| ==> s[k] == s[1..][k - 1];
    }
  }

  function OnSlot(i: nat): Token -> bool { (t: Token) => t.slot == i }

  function OwnedBy(s: SinkId): Token -> bool { (t: Token) => t.owner == Some(s) }

  function WaitingFor(s: SinkId): Token -> bool { (t: Token) => t.owner == Some(s) && t.stage == Waiting }

  lemma TokensPushed(ts: seq<Token>, t: Token)
    ensures forall i: nat :: Count(ts + [t], OnSlot(i)) == Count(ts, OnSlot(i)) + B(t.slot == i)
    ensures forall s: SinkId :: Count(ts + [t], OwnedBy(s)) == Count(ts, OwnedBy(s)) + B(t.owner == Some(s))
    ensures forall s: SinkId :: Count(ts + [t], WaitingFor(s)) == Count(ts, WaitingFor(s)) + B(WaitingFor(s)(t))
  {
    forall i: nat { CountPush(ts, t, OnSlot(i)); }
    forall s: SinkId { CountPush(ts, t, OwnedBy(s)); }
    forall s: SinkId { CountPush(ts, t, WaitingFor(s)); }
  }

  lemma TokensRemoved(ts: seq<Token>, k: nat)
    requires k < |ts|
    ensures forall i: nat :: Count(Without(ts, k), OnSlot(i)) == Count(ts, OnSlot(i)) - B(ts[k].slot == i)
    ensures forall s: SinkId :: Count(Without(ts, k), OwnedBy(s)) == Count(ts, OwnedBy(s)) - B(ts[k].owner == Some(s))
    ensures forall s: SinkId :: Count(Without(ts, k), WaitingFor(s)) == Count(ts, WaitingFor(s)) - B(WaitingFor(s)(ts[k]))
  {
    forall i: nat { CountAt(ts, k, ts[k], OnSlot(i)); }
    forall s: SinkId { CountAt(ts, k, ts[k], OwnedBy(s)); }
    forall s: SinkId { CountAt(ts, k, ts[k], WaitingFor(s)); }
  }

  /** A sink's pending token. */
  function IndexOf(ts: seq<Token>, f: Token -> bool): (k: nat)
    requires Count(ts, f) > 0
    ensures k < |ts| && f(ts[k])
  {
    if f(ts[0]) then 0 else 1 + IndexOf(ts[1..], f)
  }

  // ---- the world -------------------------------------------------------------

  /** What happened to a sink since it was attached: frames published to it, the generations
      of its deliveries in order, frames dropped; @p gets: it may take extra pins. */
  datatype Book = Book(offered: nat, starts: seq<nat>, dropped: nat, gets: bool)

  /** @p total counts publishes without wrapping; @p nums: the number of the frame last
      published in each slot, 0 for none; @p lens: the lengths published, in order. */
  datatype World = World(p: Pipe, tokens: seq<Token>, books: map<SinkId, Book>, total: nat,
                         nums: seq<nat>, lens: seq<u32>)

  /** Every slot's reference count is the number of pins on it. */
  ghost predicate SlotPins(slots: seq<Slot>, ts: seq<Token>) {
    && (forall k :: 0 <= k < |ts| ==> ts[k].slot < |slots|)
    && (forall i :: 0 <= i < |slots| ==> slots[i].refcount == Count(ts, OnSlot(i)))
  }

  /** Every sink's own count is its share. */
  ghost predicate SinkPins(sinks: map<SinkId, Sink>, ts: seq<Token>) {
    && (forall k :: 0 <= k < |ts| && ts[k].owner.Some? ==> ts[k].owner.value in sinks)
    && (forall s <- sinks :: sinks[s].pins == Count(ts, OwnedBy(s)))
  }

  /** A sink has a waiting pin exactly when it has a pending frame, and on that frame. */
  ghost predicate Pendings(sinks: map<SinkId, Sink>, ts: seq<Token>) {
    && (forall s <- sinks :: Count(ts, WaitingFor(s)) == B(sinks[s].pending.Some?))
    && (forall k :: 0 <= k < |ts| && ts[k].stage == Waiting ==>
          ts[k].owner.Some? && ts[k].owner.value in sinks && sinks[ts[k].owner.value].pending == Some(ts[k].slot))
  }

  ghost predicate Conserved(w: World) {
    SlotPins(w.p.slots, w.tokens) && SinkPins(w.p.sinks, w.tokens) && Pendings(w.p.sinks, w.tokens)
  }

  predicate Rising(gs: seq<nat>) { forall i, j :: 0 <= i < j < |gs| ==> gs[i] < gs[j] }

  /** The account of one sink when the newest frame is number @p total in slot @p latest. */
  predicate Account(k: Sink, b: Book, attached: bool, latest: int, total: nat) {
    && Rising(b.starts) && (forall i :: 0 <= i < |b.starts| ==> b.starts[i] <= total)
    && (!b.gets ==> k.pins == B(k.busy) + B(k.pending.Some?))
    && (k.pending.Some? ==> attached && k.busy && k.policy == KeepLatest && k.pending.value == latest && total !in b.starts)
    && (attached ==> b.offered == |b.starts| + b.dropped + B(k.pending.Some?) && k.dropped == b.dropped % TWO32)
    && (attached && k.policy == KeepLatest && b.offered > 0 && k.pending.None? ==>
          b.starts != [] && b.starts[|b.starts| - 1] == total)
  }

  ghost predicate Sound(p: Pipe) {
    && Formed(p) && |p.list| <= MAX_SINKS
    && (forall i :: 0 <= i < |p.slots| && p.slots[i].filling ==> p.slots[i].refcount == 0 && i != p.latest)
  }

  ghost predicate Accounts(sinks: map<SinkId, Sink>, books: map<SinkId, Book>, list: seq<SinkId>, latest: int, total: nat) {
    books.Keys == sinks.Keys && forall s <- sinks :: Account(sinks[s], books[s], s in list, latest, total)
  }

  /** Frame number @p n is one the sink was given - the newest one, for a sink that takes no
      extra pins. */
  predicate GivenAt(n: nat, b: Book) {
    0 < n && n in b.starts && (!b.gets ==> n == b.starts[|b.starts| - 1])
  }

  /** Every pin of a sink, but for that of its pending frame, is on a frame it was given. */
  ghost predicate Given(nums: seq<nat>, ts: seq<Token>, books: map<SinkId, Book>) {
    forall k :: 0 <= k < |ts| && ts[k].owner.Some? && ts[k].stage != Waiting ==>
      ts[k].slot < |nums| && ts[k].owner.value in books && GivenAt(nums[ts[k].slot], books[ts[k].owner.value])
  }

  /** Every slot carries the generation and the length published with its frame. */
  ghost predicate Labelled(slots: seq<Slot>, nums: seq<nat>, lens: seq<u32>) {
    && |nums| == |slots|
    && forall i :: 0 <= i < |slots| ==>
         && nums[i] <= |lens| && slots[i].gen == nums[i] % TWO32
         && slots[i].bytes == if nums[i] == 0 then 0 else lens[nums[i] - 1]
  }

  ghost predicate Inv(w: World) {
    && Sound(w.p) && Conserved(w) && Given(w.nums, w.tokens, w.books)
    && Labelled(w.p.slots, w.nums, w.lens) && |w.lens| == w.total
    && w.p.gen == w.total % TWO32
    && (w.p.latest >= 0 ==> w.nums[w.p.latest] == w.total > 0)
    && Accounts(w.p.sinks, w.books, w.p.list, w.p.latest, w.total)
  }

  // ---- publishing ------------------------------------------------------------

  /** One sink meets the new frame: what `Offer` does, and who now owes what. */
  function OfferW(w: World, s: SinkId, f: nat): World
    requires f < |w.p.slots| && s in w.p.sinks && s in w.books
    requires w.p.sinks[s].pending.Some? ==> w.p.sinks[s].pending.value < |w.p.slots| && Count(w.tokens, WaitingFor(s)) > 0
  {
    var k, b := w.p.sinks[s], w.books[s].(offered := w.books[s].offered + 1);
    var p' := Offer(w.p, s, f).0;
    if !k.busy then
      w.(p := p', tokens := w.tokens + [Token(Some(s), f, Owed)], books := w.books[s := b.(starts := b.starts + [w.total])])
    else if k.policy == DropWhenBusy then
      w.(p := p', books := w.books[s := b.(dropped := b.dropped + 1)])
    else if k.pending.Some? then
      w.(p := p', tokens := Without(w.tokens, IndexOf(w.tokens, WaitingFor(s))) + [Token(Some(s), f, Waiting)],
         books := w.books[s := b.(dropped := b.dropped + 1)])
    else
      w.(p := p', tokens := w.tokens + [Token(Some(s), f, Waiting)], books := w.books[s := b])
  }

  /** The accounts in the middle of a publish of frame number @p total in slot @p f: the sinks
      in @p rest have not met it yet. */
  ghost predicate MidAccounts(sinks: map<SinkId, Sink>, books: map<SinkId, Book>, list: seq<SinkId>,
                              rest: seq<SinkId>, f: nat, latest0: int, total: nat) {
    && books.Keys == sinks.Keys && total > 0
    && Distinct(rest) && (forall s <- rest :: s in list && s in sinks)
    && (forall s <- sinks :: s !in rest ==> Account(sinks[s], books[s], s in list, f, total))
    && (forall s <- sinks :: s in rest ==> Account(sinks[s], books[s], true, latest0, total - 1))
  }

  ghost predicate Mid(w: World, f: nat, rest: seq<SinkId>, latest0: int) {
    && Sound(w.p) && Conserved(w) && Given(w.nums, w.tokens, w.books)
    && Labelled(w.p.slots, w.nums, w.lens) && |w.lens| == w.total
    && w.p.latest == f < |w.p.slots| && w.nums[f] == w.total
    && MidAccounts(w.p.sinks, w.books, w.p.list, rest, f, latest0, w.total)
  }

  // ---- one pin at a time -----------------------------------------------------

  lemma PinAdded(p: Pipe, ts: seq<Token>, s: Option<SinkId>, f: nat, stage: Stage)
    requires SlotPins(p.slots, ts) && SinkPins(p.sinks, ts) && f < |p.slots| && (s.Some? ==> s.value in p.sinks)
    ensures var p', ts' := Pin1(p, s, f), ts + [Token(s, f, stage)];
            SlotPins(p'.slots, ts') && SinkPins(p'.sinks, ts')
  {
    hide Count, OnSlot, OwnedBy;
    TokensPushed(ts, Token(s, f, stage));
  }

  /** Dropping a pin that is really held: neither clamp fires. */
  lemma PinDropped(p: Pipe, ts: seq<Token>, k: nat)
    requires SlotPins(p.slots, ts) && SinkPins(p.sinks, ts) && k < |ts|
    ensures p.slots[ts[k].slot].refcount > 0
    ensures ts[k].owner.Some? ==> p.sinks[ts[k].owner.value].pins > 0
    ensures var p', ts' := Unpin(p, ts[k].owner, ts[k].slot), Without(ts, k);
            SlotPins(p'.slots, ts') && SinkPins(p'.sinks, ts')
  {
    CountPositive(ts, k, OnSlot(ts[k].slot));
    if ts[k].owner.Some? {
      CountPositive(ts, k, OwnedBy(ts[k].owner.value));
    }
    TokensRemoved(ts, k);
    hide Count, OnSlot, OwnedBy;
  }

  /** Changing a sink's record without its pin count, or without its pending frame. */
  lemma PinsTouched(sinks: map<SinkId, Sink>, ts: seq<Token>, s: SinkId, k: Sink)
    requires SinkPins(sinks, ts) && s in sinks && k.pins == sinks[s].pins
    ensures SinkPins(sinks[s := k], ts)
  {
    hide Count;
  }

  lemma PendingTouched(sinks: map<SinkId, Sink>, ts: seq<Token>, s: SinkId, k: Sink)
    requires Pendings(sinks, ts) && s in sinks && k.pending == sinks[s].pending
    ensures Pendings(sinks[s := k], ts)
  {
    hide Count;
  }

  lemma CountPositive<T>(s: seq<T>, k: nat, f: T -> bool)
    requires k < |s| && f(s[k])
    ensures Count(s, f) > 0
  {
    CountZero(s, f);
  }

  /** There is only one waiting token per sink. */
  lemma SoleWaiter(sinks: map<SinkId, Sink>, ts: seq<Token>, s: SinkId, x: nat)
    requires Pendings(sinks, ts) && s in sinks && x < |ts| && WaitingFor(s)(ts[x])
    ensures forall j :: 0 <= j < |ts| && j != x ==> !WaitingFor(s)(ts[j])
  {
    var f := WaitingFor(s);
    CountAt(ts, x, ts[x], f);
    var r := Without(ts, x);
    CountZero(r, f);
    forall j | 0 <= j < |ts| && j != x ensures !f(ts[j]) {
      assert ts[j] == if j < x then r[j] else r[j - 1];
    }
  }

  lemma PendingsPush(sinks: map<SinkId, Sink>, ts: seq<Token>, t: Token)
    requires Pendings(sinks, ts) && t.stage != Waiting
    ensures Pendings(sinks, ts + [t])
  {
    TokensPushed(ts, t);
    hide Count;
  }

  lemma PendingsRemove(sinks: map<SinkId, Sink>, ts: seq<Token>, k: nat)
    requires Pendings(sinks, ts) && k < |ts| && ts[k].stage != Waiting
    ensures Pendings(sinks, Without(ts, k))
  {
    TokensRemoved(ts, k);
    hide Count;
  }

  /** A sink with nothing pending gets a pending frame and its pin. */
  lemma PendingSet(sinks: map<SinkId, Sink>, ts: seq<Token>, s: SinkId, k: Sink, f: nat)
    requires Pendings(sinks, ts) && s in sinks && sinks[s].pending.None? && k.pending == Some(f)
    ensures Pendings(sinks[s := k], ts + [Token(Some(s), f, Waiting)])
  {
    TokensPushed(ts, Token(Some(s), f, Waiting));
    CountZero(ts, WaitingFor(s));
    hide Count;
  }

  /** A sink's pending frame goes away with its pin. */
  lemma PendingCleared(sinks: map<SinkId, Sink>, ts: seq<Token>, s: SinkId, k: Sink, x: nat)
    requires Pendings(sinks, ts) && s in sinks && k.pending.None? && x < |ts| && WaitingFor(s)(ts[x])
    ensures Pendings(sinks[s := k], Without(ts, x))
  {
    SoleWaiter(sinks, ts, s, x);
    TokensRemoved(ts, x);
    CountZero(Without(ts, x), WaitingFor(s));
    hide Count;
  }

  /** A token changes its stage; nobody's pin count moves. */
  lemma Restaged(p: Pipe, ts: seq<Token>, k: nat, stage: Stage)
    requires SlotPins(p.slots, ts) && SinkPins(p.sinks, ts) && k < |ts|
    ensures var ts' := ts[k := ts[k].(stage := stage)];
            SlotPins(p.slots, ts') && SinkPins(p.sinks, ts')
  {
    forall i: nat { CountAt(ts, k, ts[k].(stage := stage), OnSlot(i)); }
    forall s: SinkId { CountAt(ts, k, ts[k].(stage := stage), OwnedBy(s)); }
    hide Count;
  }

  lemma RestagedPendings(sinks: map<SinkId, Sink>, ts: seq<Token>, k: nat)
    requires Pendings(sinks, ts) && k < |ts| && ts[k].stage == Owed
    ensures Pendings(sinks, ts[k := ts[k].(stage := Held)])
  {
    forall s: SinkId { CountAt(ts, k, ts[k].(stage := Held), WaitingFor(s)); }
    hide Count;
  }

  /** The pending frame becomes the next delivery, keeping its pin. */
  lemma PendingStarted(sinks: map<SinkId, Sink>, ts: seq<Token>, s: SinkId, k: Sink, x: nat)
    requires Pendings(sinks, ts) && s in sinks && k.pending.None? && x < |ts| && WaitingFor(s)(ts[x])
    ensures Pendings(sinks[s := k], ts[x := ts[x].(stage := Owed)])
  {
    var ts' := ts[x := ts[x].(stage := Owed)];
    SoleWaiter(sinks, ts, s, x);
    forall t: SinkId { CountAt(ts, x, ts[x].(stage := Owed), WaitingFor(t)); }
    CountZero(ts', WaitingFor(s));
    hide Count;
  }

  // ---- what the pins are on ---------------------------------------------------

  /** Same generations and lengths. */
  ghost predicate SameStamps(a: seq<Slot>, b: seq<Slot>) {
    |a| == |b| && forall i :: 0 <= i < |a| ==> b[i].gen == a[i].gen && b[i].bytes == a[i].bytes
  }

  lemma LabelledSame(slots: seq<Slot>, slots': seq<Slot>, nums: seq<nat>, lens: seq<u32>)
    requires Labelled(slots, nums, lens) && SameStamps(slots, slots')
    ensures Labelled(slots', nums, lens)
  {
  }

  lemma GivenRemove(nums: seq<nat>, ts: seq<Token>, k: nat, books: map<SinkId, Book>)
    requires Given(nums, ts, books) && k < |ts|
    ensures Given(nums, Without(ts, k), books)
  {
    hide GivenAt;
  }

  lemma GivenPush(nums: seq<nat>, ts: seq<Token>, t: Token, books: map<SinkId, Book>)
    requires Given(nums, ts, books)
    requires t.owner.Some? && t.stage != Waiting ==>
               t.slot < |nums| && t.owner.value in books && GivenAt(nums[t.slot], books[t.owner.value])
    ensures Given(nums, ts + [t], books)
  {
    hide GivenAt;
  }

  lemma GivenRestaged(nums: seq<nat>, ts: seq<Token>, k: nat, t: Token, books: map<SinkId, Book>)
    requires Given(nums, ts, books) && k < |ts|
    requires t.owner.Some? && t.stage != Waiting ==>
               t.slot < |nums| && t.owner.value in books && GivenAt(nums[t.slot], books[t.owner.value])
    ensures Given(nums, ts[k := t], books)
  {
    hide GivenAt;
  }

  /** A book that grows keeps what it says of the frames given before - for a sink without
      extra pins, only if it holds none. */
  lemma GivenBook(nums: seq<nat>, ts: seq<Token>, books: map<SinkId, Book>, s: SinkId, b: Book)
    requires Given(nums, ts, books) && s in books && b.gets == books[s].gets
    requires b.starts == books[s].starts || exists n :: b.starts == books[s].starts + [n]
    requires b.starts == books[s].starts || b.gets ||
             forall k :: 0 <= k < |ts| && ts[k].owner == Some(s) ==> ts[k].stage == Waiting
    ensures Given(nums, ts, books[s := b])
  {
    forall n: nat | GivenAt(n, books[s]) && (b.gets || b.starts == books[s].starts) ensures GivenAt(n, b) {
      GivenMore(n, books[s], b);
    }
    hide GivenAt;
  }

  lemma GivenMore(n: nat, b: Book, b': Book)
    requires GivenAt(n, b) && b'.gets == b.gets
    requires b'.starts == b.starts || ((exists m :: b'.starts == b.starts + [m]) && b.gets)
    ensures GivenAt(n, b')
  {
  }

  /** The frame just started is one the sink was given. */
  lemma GivenNewest(n: nat, b: Book)
    requires 0 < n && b.starts != [] && n == b.starts[|b.starts| - 1]
    ensures GivenAt(n, b)
  {
  }

  /** A sink without pins holds no token; one with only its pending pin, no other. */
  lemma OnlyWaiting(w: World, s: SinkId)
    requires Conserved(w) && s in w.p.sinks && w.p.sinks[s].pins == B(w.p.sinks[s].pending.Some?)
    ensures forall k :: 0 <= k < |w.tokens| && w.tokens[k].owner == Some(s) ==> w.tokens[k].stage == Waiting
  {
    CountSplit(w.tokens, s);
    CountZero(w.tokens, Delivering(s));
    hide Count;
    forall k | 0 <= k < |w.tokens| && w.tokens[k].owner == Some(s) ensures w.tokens[k].stage == Waiting {
      assert !Delivering(s)(w.tokens[k]);
    }
  }

  function Delivering(s: SinkId): Token -> bool { (t: Token) => t.owner == Some(s) && t.stage != Waiting }

  lemma {:induction false} CountSplit(ts: seq<Token>, s: SinkId)
    ensures Count(ts, OwnedBy(s)) == Count(ts, Delivering(s)) + Count(ts, WaitingFor(s))
  {
    if ts == [] {
    } else {
      CountSplit(ts[1..], s);
    }
  }

  /** Nobody has a pin on a slot that is being filled. */
  lemma UnpinnedSlot(w: World, f: nat)
    requires Sound(w.p) && Conserved(w) && f < |w.p.slots| && w.p.slots[f].filling
    ensures forall k :: 0 <= k < |w.tokens| ==> w.tokens[k].slot != f
  {
    CountZero(w.tokens, OnSlot(f));
    forall k | 0 <= k < |w.tokens| ensures w.tokens[k].slot != f {
      assert !OnSlot(f)(w.tokens[k]);
    }
  }

  lemma StampGiven(w: World, f: nat, bytes: u32)
    requires Sound(w.p) && Conserved(w) && Given(w.nums, w.tokens, w.books) && f < |w.p.slots| && w.p.slots[f].filling
    requires Labelled(w.p.slots, w.nums, w.lens) && |w.lens| == w.total && w.p.gen == w.total % TWO32
    ensures var w' := Stamped(w, f, bytes);
            Given(w'.nums, w'.tokens, w'.books) && Labelled(w'.p.slots, w'.nums, w'.lens) && |w'.lens| == w'.total
  {
    hide GivenAt, Count, Conserved, Sound;
    UnpinnedSlot(w, f);
    WordOffsets(w.total, 1);
  }

  // ---- one sink meets a new frame --------------------------------------------

  /** A sink that starts the new frame is given it. */
  lemma OfferGiven(w: World, s: SinkId, f: nat)
    requires Formed(w.p) && Conserved(w) && Given(w.nums, w.tokens, w.books)
    requires f < |w.p.slots| && f < |w.nums| && w.nums[f] == w.total > 0 && s in w.p.sinks && s in w.books
    requires var k := w.p.sinks[s];
             (k.pending.Some? ==> k.busy && k.policy == KeepLatest) && (!w.books[s].gets ==> k.pins == B(k.busy) + B(k.pending.Some?))
    requires w.p.sinks[s].pending.Some? ==> Count(w.tokens, WaitingFor(s)) > 0
    ensures var w' := OfferW(w, s, f); Given(w'.nums, w'.tokens, w'.books)
  {
    hide Given, GivenAt, Conserved, Count, IndexOf, Offer;
    var k, b := w.p.sinks[s], w.books[s].(offered := w.books[s].offered + 1);
    if !k.busy {
      var b' := b.(starts := b.starts + [w.total]);
      if !b.gets { OnlyWaiting(w, s); }
      GivenBook(w.nums, w.tokens, w.books, s, b');
      GivenNewest(w.nums[f], b');
      GivenPush(w.nums, w.tokens, Token(Some(s), f, Owed), w.books[s := b']);
    } else if k.policy == DropWhenBusy {
      GivenBook(w.nums, w.tokens, w.books, s, b.(dropped := b.dropped + 1));
    } else if k.pending.Some? {
      var x := IndexOf(w.tokens, WaitingFor(s));
      GivenBook(w.nums, w.tokens, w.books, s, b.(dropped := b.dropped + 1));
      GivenRemove(w.nums, w.tokens, x, w.books[s := b.(dropped := b.dropped + 1)]);
      GivenPush(w.nums, Without(w.tokens, x), Token(Some(s), f, Waiting), w.books[s := b.(dropped := b.dropped + 1)]);
    } else {
      GivenBook(w.nums, w.tokens, w.books, s, b);
      GivenPush(w.nums, w.tokens, Token(Some(s), f, Waiting), w.books[s := b]);
    }
  }

  lemma OfferConserves(w: World, s: SinkId, f: nat)
    requires Formed(w.p) && Conserved(w) && f < |w.p.slots| && s in w.p.sinks && s in w.books
    requires w.p.sinks[s].pending.Some? ==> w.p.sinks[s].busy && w.p.sinks[s].policy == KeepLatest
    ensures w.p.sinks[s].pending.Some? ==> Count(w.tokens, WaitingFor(s)) > 0
    ensures Conserved(OfferW(w, s, f))
  {
    hide SlotPins, SinkPins, Pendings, Count;
    var k := w.p.sinks[s];
    if k.pending.Some? {
      WaiterExists(w, s);
    }
    if !k.busy {
      var p1 := w.p.(sinks := w.p.sinks[s := k.(busy := true)]);
      PinsTouched(w.p.sinks, w.tokens, s, k.(busy := true));
      PendingTouched(w.p.sinks, w.tokens, s, k.(busy := true));
      PinAdded(p1, w.tokens, Some(s), f, Owed);
      PendingsPush(p1.sinks, w.tokens, Token(Some(s), f, Owed));
      PinsOnly(p1, w.tokens + [Token(Some(s), f, Owed)], s, f);
    } else if k.policy == DropWhenBusy {
      PinsTouched(w.p.sinks, w.tokens, s, k.(dropped := Add32(k.dropped, 1)));
      PendingTouched(w.p.sinks, w.tokens, s, k.(dropped := Add32(k.dropped, 1)));
    } else if k.pending.Some? {
      OfferReplaces(w, s, f);
    } else {
      var p1 := w.p.(sinks := w.p.sinks[s := k.(pending := Some(f))]);
      PinsTouched(w.p.sinks, w.tokens, s, k.(pending := Some(f)));
      PinAdded(p1, w.tokens, Some(s), f, Waiting);
      PendingSet(w.p.sinks, w.tokens, s, k.(pending := Some(f)), f);
      PinsOnly(p1, w.tokens + [Token(Some(s), f, Waiting)], s, f);
    }
  }

  lemma WaiterExists(w: World, s: SinkId)
    requires Conserved(w) && s in w.p.sinks && w.p.sinks[s].pending.Some?
    ensures Count(w.tokens, WaitingFor(s)) > 0
    ensures var x := IndexOf(w.tokens, WaitingFor(s));
            && w.tokens[x].owner == Some(s) && w.tokens[x].stage == Waiting
            && Some(w.tokens[x].slot) == w.p.sinks[s].pending && w.tokens[x].slot < |w.p.slots|
  {
  }

  lemma PinsOnly(p: Pipe, ts: seq<Token>, s: SinkId, f: nat)
    requires Pendings(p.sinks, ts) && s in p.sinks && f < |p.slots|
    ensures Pendings(Pin1(p, Some(s), f).sinks, ts)
  {
    hide Count;
  }

  lemma UnpinPendings(p: Pipe, ts: seq<Token>, s: SinkId, f: nat)
    requires Pendings(p.sinks, ts) && s in p.sinks && f < |p.slots|
    ensures Pendings(Unpin(p, Some(s), f).sinks, ts)
  {
    hide Count;
  }

  /** A newer frame takes the place of the pending one. */
  lemma OfferReplaces(w: World, s: SinkId, f: nat)
    requires Formed(w.p) && Conserved(w) && f < |w.p.slots| && s in w.p.sinks && s in w.books
    requires w.p.sinks[s].pending.Some? && w.p.sinks[s].busy && w.p.sinks[s].policy == KeepLatest
    ensures Count(w.tokens, WaitingFor(s)) > 0
    ensures Conserved(OfferW(w, s, f))
  {
    hide SlotPins, SinkPins, Pendings, Count, IndexOf, Pin1, Unpin;
    WaiterExists(w, s);
    var x := IndexOf(w.tokens, WaitingFor(s));
    var i := w.tokens[x].slot;
    PinDropped(w.p, w.tokens, x);
    var u, ts := Unpin(w.p, Some(s), i), Without(w.tokens, x);
    UnpinKeeps(w.p, s, i);
    UnpinPendings(w.p, w.tokens, s, i);
    var d := u.sinks[s].(dropped := Add32(u.sinks[s].dropped, 1));
    PinsTouched(u.sinks, ts, s, d);
    PendingTouched(u.sinks, w.tokens, s, d);
    var p1 := u.(sinks := u.sinks[s := d]);
    PendingCleared(p1.sinks, w.tokens, s, d.(pending := None), x);
    PendingSet(p1.sinks[s := d.(pending := None)], ts, s, d.(pending := Some(f)), f);
    assert p1.sinks[s := d.(pending := None)][s := d.(pending := Some(f))] == p1.sinks[s := d.(pending := Some(f))];
    var p2 := p1.(sinks := p1.sinks[s := d.(pending := Some(f))]);
    PinsTouched(p1.sinks, ts, s, d.(pending := Some(f)));
    PinAdded(p2, ts, Some(s), f, Waiting);
    PinsOnly(p2, ts + [Token(Some(s), f, Waiting)], s, f);
  }

  lemma UnpinKeeps(p: Pipe, s: SinkId, i: nat)
    requires i < |p.slots| && s in p.sinks
    ensures var u := Unpin(p, Some(s), i);
            && u.sinks.Keys == p.sinks.Keys && |u.slots| == |p.slots| && u == p.(slots := u.slots, sinks := u.sinks)
            && u.sinks[s] == p.sinks[s].(pins := u.sinks[s].pins)
  {
  }

  lemma OfferShape(p: Pipe, s: SinkId, f: nat)
    requires Sound(p) && f < |p.slots| && s in p.sinks && !p.slots[f].filling && p.latest == f
    requires p.sinks[s].pending.Some? ==> !p.slots[p.sinks[s].pending.value].filling
    ensures var p' := Offer(p, s, f).0;
            && Sound(p') && p'.sinks == p.sinks[s := p'.sinks[s]] && |p'.slots| == |p.slots|
            && p' == p.(slots := p'.slots, sinks := p'.sinks)
            && (forall i :: 0 <= i < |p.slots| ==> p'.slots[i] == p.slots[i].(refcount := p'.slots[i].refcount))
  {
  }

  /** What meeting a frame leaves of a sink and its book. */
  lemma OfferedSink(w: World, s: SinkId, f: nat)
    requires Formed(w.p) && f < |w.p.slots| && s in w.p.sinks && s in w.books
    requires w.p.sinks[s].pending.Some? ==> Count(w.tokens, WaitingFor(s)) > 0 && w.p.sinks[s].pins > 0
    ensures var k, b := w.p.sinks[s], w.books[s].(offered := w.books[s].offered + 1);
            var w' := OfferW(w, s, f);
            w'.total == w.total && s in w'.p.sinks && s in w'.books &&
            var k', b' := w'.p.sinks[s], w'.books[s];
            if !k.busy then k' == k.(busy := true, pins := k.pins + 1) && b' == b.(starts := b.starts + [w.total])
            else if k.policy == DropWhenBusy then
              k' == k.(dropped := Add32(k.dropped, 1)) && b' == b.(dropped := b.dropped + 1)
            else if k.pending.Some? then
              k' == k.(dropped := Add32(k.dropped, 1), pending := Some(f)) && b' == b.(dropped := b.dropped + 1)
            else k' == k.(pending := Some(f), pins := k.pins + 1) && b' == b
  {
    hide Count, Without, IndexOf;
  }

  /** The account of the sink that meets the frame. */
  lemma OfferAccount(w: World, s: SinkId, f: nat, latest0: int)
    requires Formed(w.p) && f < |w.p.slots| && s in w.p.sinks && s in w.books && w.total > 0
    requires w.p.sinks[s].pending.Some? ==> Count(w.tokens, WaitingFor(s)) > 0 && w.p.sinks[s].pins > 0
    requires Account(w.p.sinks[s], w.books[s], true, latest0, w.total - 1)
    ensures var w' := OfferW(w, s, f);
            Account(w'.p.sinks[s], w'.books[s], true, f, w.total)
  {
    hide Count, OfferW, Offer, Formed, Account;
    OfferedSink(w, s, f);
    var k, b := w.p.sinks[s], w.books[s].(offered := w.books[s].offered + 1);
    if !k.busy {
      StartAccount(k, w.books[s], latest0, f, w.total);
    } else {
      MissAccount(k, w.books[s], latest0, f, w.total);
    }
  }

  /** The account of an idle sink that starts frame number @p total. */
  lemma StartAccount(k: Sink, b: Book, latest0: int, f: nat, total: nat)
    requires total > 0 && !k.busy && Account(k, b, true, latest0, total - 1)
    ensures Account(k.(busy := true, pins := k.pins + 1), b.(offered := b.offered + 1, starts := b.starts + [total]), true, f, total)
  {
  }

  /** The account of a busy sink that drops the frame, or keeps it in place of an older one. */
  lemma MissAccount(k: Sink, b: Book, latest0: int, f: nat, total: nat)
    requires total > 0 && k.busy && Account(k, b, true, latest0, total - 1)
    ensures k.policy == DropWhenBusy ==>
              Account(k.(dropped := Add32(k.dropped, 1)), b.(offered := b.offered + 1, dropped := b.dropped + 1), true, f, total)
    ensures k.policy != DropWhenBusy && k.pending.Some? ==>
              Account(k.(dropped := Add32(k.dropped, 1), pending := Some(f)),
                      b.(offered := b.offered + 1, dropped := b.dropped + 1), true, f, total)
    ensures k.policy != DropWhenBusy && k.pending.None? ==>
              Account(k.(pending := Some(f), pins := k.pins + 1), b.(offered := b.offered + 1), true, f, total)
  {
    WordOffsets(b.dropped, 1);
  }

  /** The sinks of @p list meet the frame in turn. */
  ghost function OfferAllW(w: World, list: seq<SinkId>, f: nat, latest0: int): World
    requires Mid(w, f, list, latest0)
    decreases |list|
  {
    if list == [] then w
    else
      OfferKeepsMid(w, list, f, latest0);
      OfferAllW(OfferW(w, list[0], f), list[1..], f, latest0)
  }

  /** A pending frame's slot is pinned, so it is not being filled. */
  lemma PendingPinned(w: World, s: SinkId)
    requires Sound(w.p) && Conserved(w) && s in w.p.sinks && w.p.sinks[s].pending.Some?
    ensures Count(w.tokens, WaitingFor(s)) > 0 && w.p.sinks[s].pins > 0
    ensures var i := w.p.sinks[s].pending.value;
            i < |w.p.slots| && w.p.slots[i].refcount > 0 && !w.p.slots[i].filling
  {
    WaiterExists(w, s);
    PinDropped(w.p, w.tokens, IndexOf(w.tokens, WaitingFor(s)));
  }

  lemma OfferKeepsMid(w: World, list: seq<SinkId>, f: nat, latest0: int)
    requires Mid(w, f, list, latest0) && list != []
    ensures list[0] in w.p.sinks && list[0] in w.books
    ensures w.p.sinks[list[0]].pending.Some? ==> w.p.sinks[list[0]].pending.value < |w.p.slots| && Count(w.tokens, WaitingFor(list[0])) > 0
    ensures Mid(OfferW(w, list[0], f), f, list[1..], latest0)
  {
    hide Account, Offer, OfferW, Conserved, Sound, Count, MidAccounts, Given, Labelled, Formed;
    var s := list[0];
    MidSink(w, f, list, latest0);
    OfferConserves(w, s, f);
    OfferShape(w.p, s, f);
    OfferAccount(w, s, f, latest0);
    OfferGiven(w, s, f);
    var w' := OfferW(w, s, f);
    OfferBooks(w, s, f);
    LabelledSame(w.p.slots, w'.p.slots, w.nums, w.lens);
    MidNext(w.p.sinks, w.books, w.p.list, list, f, latest0, w.total, w'.p.sinks[s], w'.books[s]);
  }

  /** What is known of the next sink to meet the frame. */
  lemma MidSink(w: World, f: nat, list: seq<SinkId>, latest0: int)
    requires Mid(w, f, list, latest0) && list != []
    ensures list[0] in w.p.sinks && list[0] in w.books && Formed(w.p) && w.total > 0
    ensures !w.p.slots[f].filling && f < |w.nums|
    ensures Account(w.p.sinks[list[0]], w.books[list[0]], true, latest0, w.total - 1)
    ensures var k := w.p.sinks[list[0]];
            && (!w.books[list[0]].gets ==> k.pins == B(k.busy) + B(k.pending.Some?))
            && (k.pending.Some? ==>
                  && k.busy && k.policy == KeepLatest && k.pins > 0 && Count(w.tokens, WaitingFor(list[0])) > 0
                  && k.pending.value < |w.p.slots| && !w.p.slots[k.pending.value].filling)
  {
    hide Count, Given, Conserved;
    assert Account(w.p.sinks[list[0]], w.books[list[0]], true, latest0, w.total - 1);
    if w.p.sinks[list[0]].pending.Some? { PendingPinned(w, list[0]); }
  }

  lemma MidNext(sinks: map<SinkId, Sink>, books: map<SinkId, Book>, list: seq<SinkId>,
                rest: seq<SinkId>, f: nat, latest0: int, total: nat, k: Sink, b: Book)
    requires MidAccounts(sinks, books, list, rest, f, latest0, total) && rest != [] && Account(k, b, true, f, total)
    ensures MidAccounts(sinks[rest[0] := k], books[rest[0] := b], list, rest[1..], f, latest0, total)
  {
    hide Account;
    var s := rest[0];
    assert s in list && forall t :: t in rest <==> t == s || t in rest[1..];
  }

  lemma OfferBooks(w: World, s: SinkId, f: nat)
    requires f < |w.p.slots| && s in w.p.sinks && s in w.books
    requires w.p.sinks[s].pending.Some? ==> w.p.sinks[s].pending.value < |w.p.slots| && Count(w.tokens, WaitingFor(s)) > 0
    ensures var w' := OfferW(w, s, f);
            && w' == w.(p := Offer(w.p, s, f).0, tokens := w'.tokens, books := w'.books)
            && w'.books == w.books[s := w'.books[s]]
  {
  }

  // ---- a whole publish -------------------------------------------------------

  function OwedTo(s: SinkId): Token -> bool { (t: Token) => t.owner == Some(s) && t.stage == Owed }

  /** Exactly the sink that starts a delivery is owed one more `consume`. */
  lemma OfferOwes(w: World, s: SinkId, f: nat, t: SinkId)
    requires Formed(w.p) && Conserved(w) && f < |w.p.slots| && s in w.p.sinks && s in w.books
    ensures w.p.sinks[s].pending.Some? ==> Count(w.tokens, WaitingFor(s)) > 0
    ensures Count(OfferW(w, s, f).tokens, OwedTo(t)) == Count(w.tokens, OwedTo(t)) + B(t == s && Offer(w.p, s, f).1)
  {
    hide Count;
    if w.p.sinks[s].pending.Some? {
      WaiterExists(w, s);
      var x := IndexOf(w.tokens, WaitingFor(s));
      CountAt(w.tokens, x, w.tokens[x], OwedTo(t));
      CountPush(Without(w.tokens, x), Token(Some(s), f, Waiting), OwedTo(t));
    }
    CountPush(w.tokens, Token(Some(s), f, Owed), OwedTo(t));
    CountPush(w.tokens, Token(Some(s), f, Waiting), OwedTo(t));
  }

  lemma OfferAllWUnfold(w: World, list: seq<SinkId>, f: nat, latest0: int)
    requires Mid(w, f, list, latest0) && list != []
    ensures list[0] in w.p.sinks && list[0] in w.books && f < |w.p.slots|
    ensures w.p.sinks[list[0]].pending.Some? ==> w.p.sinks[list[0]].pending.value < |w.p.slots| && Count(w.tokens, WaitingFor(list[0])) > 0
    ensures var w1 := OfferW(w, list[0], f);
            && Mid(w1, f, list[1..], latest0)
            && w1 == w.(p := Offer(w.p, list[0], f).0, tokens := w1.tokens, books := w1.books)
            && OfferAllW(w, list, f, latest0) == OfferAllW(w1, list[1..], f, latest0)
  {
    OfferKeepsMid(w, list, f, latest0);
    OfferBooks(w, list[0], f);
    hide OfferW, Count;
  }

  /** The publish loop, followed sink by sink, computes what `OfferAll` computes. */
  ghost predicate Matched(w: World, list: seq<SinkId>, f: nat, latest0: int, n: nat)
    requires Mid(w, f, list, latest0) && Formed(w.p) && forall s <- list :: s in w.p.sinks
  {
    var w', p' := OfferAllW(w, list, f, latest0), OfferAll(w.p, list, f, n).0;
    && Mid(w', f, [], latest0) && w' == w.(p := p', tokens := w'.tokens, books := w'.books)
    && p' == w.p.(slots := p'.slots, sinks := p'.sinks) && |p'.slots| == |w.p.slots|
  }

  lemma {:induction false} OfferAllMatches(w: World, list: seq<SinkId>, f: nat, latest0: int, n: nat)
    requires Mid(w, f, list, latest0) && Formed(w.p) && forall s <- list :: s in w.p.sinks
    ensures Matched(w, list, f, latest0, n)
    decreases |list|
  {
    hide Mid, Count, Offer, OfferW, OfferAll, OfferAllW, Formed, Matched;
    if list == [] {
      MatchedNone(w, f, latest0, n);
    } else {
      var s := list[0];
      OfferAllWUnfold(w, list, f, latest0);
      OfferAllUnfold(w.p, list, f, n);
      var here := if Offer(w.p, s, f).1 && n < MAX_SINKS then [s] else [];
      OfferAllMatches(OfferW(w, s, f), list[1..], f, latest0, n + |here|);
      MatchedStep(w, list, f, latest0, n, here);
    }
  }

  lemma MatchedNone(w: World, f: nat, latest0: int, n: nat)
    requires Mid(w, f, [], latest0) && Formed(w.p)
    ensures Matched(w, [], f, latest0, n)
  {
  }

  lemma MatchedStep(w: World, list: seq<SinkId>, f: nat, latest0: int, n: nat, here: seq<SinkId>)
    requires Mid(w, f, list, latest0) && Formed(w.p) && (forall s <- list :: s in w.p.sinks) && list != []
    requires list[0] in w.books && here == if Offer(w.p, list[0], f).1 && n < MAX_SINKS then [list[0]] else []
    requires w.p.sinks[list[0]].pending.Some? ==> w.p.sinks[list[0]].pending.value < |w.p.slots| && Count(w.tokens, WaitingFor(list[0])) > 0
    requires var w1 := OfferW(w, list[0], f);
             && Mid(w1, f, list[1..], latest0) && Formed(w1.p) && w1.p.sinks.Keys == w.p.sinks.Keys
             && Matched(w1, list[1..], f, latest0, n + |here|)
    ensures Matched(w, list, f, latest0, n)
  {
    hide Mid, Count, Offer, OfferW, OfferAll, OfferAllW, Formed, Sound;
    OfferAllWUnfold(w, list, f, latest0);
    OfferAllUnfold(w.p, list, f, n);
    MidPending(w, f, list, latest0);
    OfferShape(w.p, list[0], f);
  }

  /** The delivery list never overflows: its members are distinct, all attached, and exactly
      the sinks that are owed one more call. */
  ghost predicate Owes(w: World, list: seq<SinkId>, f: nat, latest0: int, n: nat, t: SinkId)
    requires Mid(w, f, list, latest0) && Formed(w.p) && forall s <- list :: s in w.p.sinks
  {
    var deliver := OfferAll(w.p, list, f, n).1;
    && (forall s <- deliver :: s in list) && Distinct(deliver)
    && Count(OfferAllW(w, list, f, latest0).tokens, OwedTo(t)) == Count(w.tokens, OwedTo(t)) + B(t in deliver)
  }

  lemma {:induction false} OfferAllOwes(w: World, list: seq<SinkId>, f: nat, latest0: int, n: nat, t: SinkId)
    requires Mid(w, f, list, latest0) && n + |list| <= MAX_SINKS && Formed(w.p) && forall s <- list :: s in w.p.sinks
    ensures Owes(w, list, f, latest0, n, t)
    decreases |list|
  {
    hide Mid, Count, Offer, OfferW, OfferAll, OfferAllW, Formed, Owes;
    if list == [] {
      OwesNone(w, f, latest0, n, t);
    } else {
      var s := list[0];
      OfferAllWUnfold(w, list, f, latest0);
      OfferAllUnfold(w.p, list, f, n);
      OfferAllOwes(OfferW(w, s, f), list[1..], f, latest0, n + B(Offer(w.p, s, f).1), t);
      OwesStep(w, list, f, latest0, n, t);
    }
  }

  lemma OwesNone(w: World, f: nat, latest0: int, n: nat, t: SinkId)
    requires Mid(w, f, [], latest0) && Formed(w.p)
    ensures Owes(w, [], f, latest0, n, t)
  {
  }

  lemma OwesStep(w: World, list: seq<SinkId>, f: nat, latest0: int, n: nat, t: SinkId)
    requires Mid(w, f, list, latest0) && Formed(w.p) && (forall s <- list :: s in w.p.sinks) && list != []
    requires n + |list| <= MAX_SINKS && list[0] in w.books
    requires w.p.sinks[list[0]].pending.Some? ==> w.p.sinks[list[0]].pending.value < |w.p.slots| && Count(w.tokens, WaitingFor(list[0])) > 0
    requires var w1 := OfferW(w, list[0], f);
             && Mid(w1, f, list[1..], latest0) && Formed(w1.p) && w1.p.sinks.Keys == w.p.sinks.Keys
             && Owes(w1, list[1..], f, latest0, n + B(Offer(w.p, list[0], f).1), t)
    ensures Owes(w, list, f, latest0, n, t)
  {
    hide Mid, Count, Offer, OfferW, OfferAll, OfferAllW, Formed, Sound, Conserved;
    OfferAllWUnfold(w, list, f, latest0);
    MidPending(w, f, list, latest0);
    OfferAllUnfold(w.p, list, f, n);
    MidDistinct(w, f, list, latest0);
    OfferOwes(w, list[0], f, t);
  }

  /** The frame is offered once to every sink of the list, and the ones on the delivery list
      start it: its number is their newest, and a `consume` of its slot is owed to them. */
  ghost predicate Booked(w: World, list: seq<SinkId>, f: nat, latest0: int, n: nat, t: SinkId)
    requires Mid(w, f, list, latest0) && Formed(w.p) && forall s <- list :: s in w.p.sinks
  {
    var w', deliver := OfferAllW(w, list, f, latest0), OfferAll(w.p, list, f, n).1;
    && (t in w.books ==>
          && t in w'.books
          && w'.books[t].offered == w.books[t].offered + B(t in list)
          && w'.books[t].starts == w.books[t].starts + if t in deliver then [w.total] else [])
    && (Token(Some(t), f, Owed) in w.tokens || t in deliver ==> Token(Some(t), f, Owed) in w'.tokens)
  }

  lemma OfferBook(w: World, s: SinkId, f: nat, t: SinkId)
    requires Formed(w.p) && f < |w.p.slots| && s in w.p.sinks && s in w.books
    requires w.p.sinks[s].pending.Some? ==> Count(w.tokens, WaitingFor(s)) > 0
    ensures var w', d := OfferW(w, s, f), Offer(w.p, s, f).1;
            && (t in w.books ==>
                  && t in w'.books
                  && w'.books[t].offered == w.books[t].offered + B(t == s)
                  && w'.books[t].starts == w.books[t].starts + if t == s && d then [w.total] else [])
            && (Token(Some(t), f, Owed) in w.tokens || (t == s && d) ==> Token(Some(t), f, Owed) in w'.tokens)
  {
    hide Count, IndexOf, Pin1, Unpin;
    if t in w.books { assert w.books[t].starts + [] == w.books[t].starts; }
    var owed := Token(Some(t), f, Owed);
    if w.p.sinks[s].pending.Some? {
      var x := IndexOf(w.tokens, WaitingFor(s));
      if owed in w.tokens { StaysIn(w.tokens, x, owed); }
    }
    assert (w.tokens + [owed])[|w.tokens|] == owed;
  }

  lemma StaysIn<T>(ts: seq<T>, x: nat, t: T)
    requires x < |ts| && ts[x] != t && t in ts
    ensures t in Without(ts, x)
  {
    var i :| 0 <= i < |ts| && ts[i] == t;
    assert Without(ts, x)[if i < x then i else i - 1] == t;
  }

  lemma {:induction false} OfferAllBooks(w: World, list: seq<SinkId>, f: nat, latest0: int, n: nat, t: SinkId)
    requires Mid(w, f, list, latest0) && n + |list| <= MAX_SINKS && Formed(w.p) && forall s <- list :: s in w.p.sinks
    ensures Booked(w, list, f, latest0, n, t)
    decreases |list|
  {
    hide Mid, Count, Offer, OfferW, OfferAll, OfferAllW, Formed, Booked;
    if list == [] {
      BookedNone(w, f, latest0, n, t);
    } else {
      var s := list[0];
      OfferAllWUnfold(w, list, f, latest0);
      OfferAllUnfold(w.p, list, f, n);
      OfferAllBooks(OfferW(w, s, f), list[1..], f, latest0, n + B(Offer(w.p, s, f).1), t);
      BookedStep(w, list, f, latest0, n, t);
    }
  }

  lemma BookedNone(w: World, f: nat, latest0: int, n: nat, t: SinkId)
    requires Mid(w, f, [], latest0) && Formed(w.p)
    ensures Booked(w, [], f, latest0, n, t)
  {
    if t in w.books { assert w.books[t].starts + [] == w.books[t].starts; }
  }

  lemma BookedStep(w: World, list: seq<SinkId>, f: nat, latest0: int, n: nat, t: SinkId)
    requires Mid(w, f, list, latest0) && Formed(w.p) && (forall s <- list :: s in w.p.sinks) && list != []
    requires n + |list| <= MAX_SINKS && list[0] in w.books
    requires w.p.sinks[list[0]].pending.Some? ==> w.p.sinks[list[0]].pending.value < |w.p.slots| && Count(w.tokens, WaitingFor(list[0])) > 0
    requires var w1 := OfferW(w, list[0], f);
             && Mid(w1, f, list[1..], latest0) && Formed(w1.p) && w1.p.sinks.Keys == w.p.sinks.Keys
             && Booked(w1, list[1..], f, latest0, n + B(Offer(w.p, list[0], f).1), t)
    ensures Booked(w, list, f, latest0, n, t)
  {
    hide Mid, Count, Offer, OfferW, OfferAll, OfferAllW, Formed, Sound, Conserved, Given;
    OfferAllWUnfold(w, list, f, latest0);
    MidPending(w, f, list, latest0);
    OfferAllUnfold(w.p, list, f, n);
    MidDistinct(w, f, list, latest0);
    OfferBook(w, list[0], f, t);
    OfferAllOwes(OfferW(w, list[0], f), list[1..], f, latest0, n + B(Offer(w.p, list[0], f).1), t);
    assert list == [list[0]] + list[1..];
  }

  lemma MidPending(w: World, f: nat, list: seq<SinkId>, latest0: int)
    requires Mid(w, f, list, latest0) && list != []
    ensures list[0] in w.p.sinks && list[0] in w.books && Formed(w.p) && Conserved(w) && Sound(w.p)
    ensures w.p.latest == f < |w.p.slots| && !w.p.slots[f].filling
    ensures w.p.sinks[list[0]].pending.Some? ==> !w.p.slots[w.p.sinks[list[0]].pending.value].filling
  {
    if w.p.sinks[list[0]].pending.Some? {
      PendingPinned(w, list[0]);
    }
  }

  lemma MidDistinct(w: World, f: nat, list: seq<SinkId>, latest0: int)
    requires Mid(w, f, list, latest0) && list != []
    ensures list[0] !in list[1..]
  {
  }

  ghost function PublishW(w: World, f: nat, bytes: u32): World
    requires Inv(w) && f < |w.p.slots| && w.p.slots[f].filling
    ensures Inv(PublishW(w, f, bytes))
  {
    PublishStarts(w, f, bytes);
    PublishEnds(w, f, bytes);
    OfferAllW(Stamped(w, f, bytes), w.p.list, f, w.p.latest)
  }

  function Stamped(w: World, f: nat, bytes: u32): World
    requires f < |w.p.slots| && f < |w.nums|
  {
    w.(p := Stamp(w.p, f, bytes), total := w.total + 1, nums := w.nums[f := w.total + 1], lens := w.lens + [bytes])
  }

  lemma StampConserved(w: World, f: nat, bytes: u32)
    requires Conserved(w) && f < |w.p.slots| && f < |w.nums|
    ensures Conserved(Stamped(w, f, bytes))
  {
    hide Count;
  }

  lemma PublishStarts(w: World, f: nat, bytes: u32)
    requires Inv(w) && f < |w.p.slots| && w.p.slots[f].filling
    ensures Mid(Stamped(w, f, bytes), f, w.p.list, w.p.latest)
  {
    hide Count, Given, Conserved;
    StampGiven(w, f, bytes);
    StampConserved(w, f, bytes);
    WordOffsets(w.total, 1);
    forall s | s in w.p.sinks && s !in w.p.list
      ensures Account(w.p.sinks[s], w.books[s], false, f, w.total + 1)
    {
      assert Account(w.p.sinks[s], w.books[s], false, w.p.latest, w.total);
    }
  }

  lemma PublishEnds(w: World, f: nat, bytes: u32)
    requires Inv(w) && f < |w.p.slots| && w.p.slots[f].filling
    requires Mid(Stamped(w, f, bytes), f, w.p.list, w.p.latest)
    ensures Inv(OfferAllW(Stamped(w, f, bytes), w.p.list, f, w.p.latest))
  {
    var w1 := Stamped(w, f, bytes);
    WordOffsets(w.total, 1);
    OfferAllMatches(w1, w.p.list, f, w.p.latest, 0);
    hide Conserved, Account, OfferAll, OfferAllW, Given;
  }

  /** Publishing in the world is the critical section of `frame_pipeline_publish`; every sink
      on its delivery list, and no other, is owed exactly one more `consume`. */
  lemma PublishRefines(w: World, f: nat, bytes: u32, t: SinkId)
    requires Inv(w) && f < |w.p.slots| && w.p.slots[f].filling
    ensures PublishW(w, f, bytes).p == PublishP(w.p, f, bytes).0
    ensures var deliver := PublishP(w.p, f, bytes).1;
            && (forall s <- deliver :: s in w.p.list) && Distinct(deliver)
            && Count(PublishW(w, f, bytes).tokens, OwedTo(t)) == Count(w.tokens, OwedTo(t)) + B(t in deliver)
  {
    hide Mid, Count, OfferAll, OfferAllW, Conserved, Account, Given;
    PublishStarts(w, f, bytes);
    var w1 := Stamped(w, f, bytes);
    OfferAllMatches(w1, w.p.list, f, w.p.latest, 0);
    OfferAllOwes(w1, w.p.list, f, w.p.latest, 0, t);
  }

  /** One publish offers its frame once to exactly the attached sinks; those on the delivery
      list, and no others, start it: it is the newest of the frames they were given, and the
      `consume` they are owed is of the slot stamped with its generation. */
  lemma PublishGives(w: World, f: nat, bytes: u32, t: SinkId)
    requires Inv(w) && f < |w.p.slots| && w.p.slots[f].filling && t in w.books
    ensures var w', deliver := PublishW(w, f, bytes), PublishP(w.p, f, bytes).1;
            && w'.total == w.total + 1 && w'.lens == w.lens + [bytes]
            && |w'.p.slots| == |w.p.slots| && w'.p.latest == f
            && w'.p.slots[f].gen == w'.total % TWO32 && w'.p.slots[f].bytes == bytes
            && t in w'.books
            && w'.books[t].offered == w.books[t].offered + B(t in w.p.list)
            && w'.books[t].starts == w.books[t].starts + (if t in deliver then [w'.total] else [])
            && (t in deliver ==> Token(Some(t), f, Owed) in w'.tokens)
  {
    hide Count, OfferAll, OfferAllW, Conserved, Account, Given, Sound;
    PublishStarts(w, f, bytes);
    var w1 := Stamped(w, f, bytes);
    StampedFormed(w, f, bytes);
    OfferAllMatches(w1, w.p.list, f, w.p.latest, 0);
    OfferAllBooks(w1, w.p.list, f, w.p.latest, 0, t);
  }

  /** What one publish makes of every sink. */
  lemma PublishMeets(w: World, f: nat, bytes: u32, t: SinkId)
    requires Inv(w) && f < |w.p.slots| && w.p.slots[f].filling && t in w.p.sinks
    ensures var w', deliver := PublishW(w, f, bytes), PublishP(w.p, f, bytes).1;
            && t in w'.p.sinks
            && (t in deliver <==> t in w.p.list && !w.p.sinks[t].busy)
            && if t in w.p.list then Met(w.p.sinks[t], w'.p.sinks[t], f) else w'.p.sinks[t] == w.p.sinks[t]
  {
    hide Count, OfferAll, PublishW, Account, Accounts, Given, Met, Labelled, Conserved;
    StampedFormed(w, f, bytes);
    forall s | s in w.p.list ensures s in w.p.sinks && (w.p.sinks[s].pending.Some? ==> w.p.sinks[s].pins > 0) {
      if w.p.sinks[s].pending.Some? { PendingPinned(w, s); }
    }
    OfferAllMeets(Stamp(w.p, f, bytes), w.p.list, f, 0, t);
    PublishRefines(w, f, bytes, t);
  }

  lemma StampedFormed(w: World, f: nat, bytes: u32)
    requires Inv(w) && f < |w.p.slots|
    ensures var p := Stamp(w.p, f, bytes);
            Formed(w.p) && Formed(p) && (forall s <- w.p.list :: s in p.sinks) && |w.p.list| <= MAX_SINKS && |p.slots| == |w.p.slots|
  {
  }

  // ---- every critical section ------------------------------------------------

  /** What can happen next, in any order: the producer acquires or publishes; a sink is
      attached (its `open` may refuse) or detached; an owed `consume` starts, or a callback
      returns; a pin is put; a sink takes an extra pin; a reader pins the latest frame. */
  datatype Event =
    | Acquire
    | Publish(f: nat, bytes: u32)
    | Attach(s: SinkId, policy: Policy, accepted: bool, gets: bool)
    | Detach(s: SinkId)
    | Start(k: nat)
    | Finish(s: SinkId, failed: bool)
    | Put(k: nat)
    | Get(k: nat)
    | PinLatest

  /** What the callers guarantee: only a slot being filled is published; a sink is attached
      only while detached and drained; every pin is put once, by whoever holds it. */
  ghost predicate Enabled(w: World, e: Event) {
    match e
    case Acquire => true
    case Publish(f, _) => f < |w.p.slots| && w.p.slots[f].filling
    case Attach(s, _, _, _) => s !in w.p.list && Count(w.tokens, OwnedBy(s)) == 0
    case Detach(s) => s in w.p.sinks
    case Start(k) => k < |w.tokens| && w.tokens[k].stage == Owed
    case Finish(s, _) => s in w.p.sinks
    case Put(k) => k < |w.tokens| && w.tokens[k].stage == Held
    case Get(k) => k < |w.tokens| && w.tokens[k].stage == Held && w.tokens[k].owner.Some? &&
                   w.tokens[k].owner.value in w.books && w.books[w.tokens[k].owner.value].gets
    case PinLatest => true
  }

  ghost function DetachW(w: World, s: SinkId): World
    requires Inv(w) && s in w.p.sinks
  {
    var p' := DetachP(w.p, s).0;
    if w.p.sinks[s].pending.Some? then
      WaiterExists(w, s);
      w.(p := p', tokens := Without(w.tokens, IndexOf(w.tokens, WaitingFor(s))))
    else w.(p := p')
  }

  ghost function PutW(w: World, k: nat): World
    requires Inv(w) && k < |w.tokens| && w.tokens[k].stage == Held
  {
    var t := w.tokens[k];
    var p' := PutP(w.p, t.owner, t.slot).0;
    var rest := Without(w.tokens, k);
    if t.owner.Some? && w.p.sinks[t.owner.value].pending.Some? then
      var s := t.owner.value;
      PutWaiter(w, k);
      var x := IndexOf(rest, WaitingFor(s));
      w.(p := p', tokens := rest[x := rest[x].(stage := Owed)],
         books := w.books[s := w.books[s].(starts := w.books[s].starts + [w.total])])
    else w.(p := p', tokens := rest)
  }

  lemma PutWaiter(w: World, k: nat)
    requires Conserved(w) && k < |w.tokens| && w.tokens[k].stage == Held && w.tokens[k].owner.Some?
    requires w.p.sinks[w.tokens[k].owner.value].pending.Some?
    ensures Count(Without(w.tokens, k), WaitingFor(w.tokens[k].owner.value)) > 0
  {
    TokensRemoved(w.tokens, k);
  }

  ghost function Next(w: World, e: Event): World
    requires Inv(w) && Enabled(w, e)
  {
    match e
    case Acquire => w.(p := AcquireP(w.p).0)
    case Publish(f, bytes) => PublishW(w, f, bytes)
    case Attach(s, policy, accepted, gets) =>
      if |w.p.list| < MAX_SINKS && accepted
      then w.(p := AttachP(w.p, s, policy), books := w.books[s := Book(0, [], 0, gets)]) else w
    case Detach(s) => DetachW(w, s)
    case Start(k) => w.(tokens := w.tokens[k := w.tokens[k].(stage := Held)])
    case Finish(s, failed) => w.(p := ConsumedP(w.p, s, failed))
    case Put(k) => PutW(w, k)
    case Get(k) =>
      var t := w.tokens[k];
      w.(p := Pin1(w.p, t.owner, t.slot), tokens := w.tokens + [t])
    case PinLatest =>
      if w.p.latest < 0 then w
      else w.(p := PinLatestP(w.p).0, tokens := w.tokens + [Token(None, w.p.latest, Held)])
  }

  // ---- each keeps the invariant ------------------------------------------------

  lemma AcquireKeeps(w: World)
    requires Inv(w)
    ensures Inv(Next(w, Acquire))
  {
    hide Count, Account, Given;
    LabelledSame(w.p.slots, AcquireP(w.p).0.slots, w.nums, w.lens);
  }

  lemma AttachKeeps(w: World, s: SinkId, policy: Policy, gets: bool)
    requires Inv(w) && s !in w.p.list && Count(w.tokens, OwnedBy(s)) == 0 && |w.p.list| < MAX_SINKS
    ensures Inv(w.(p := AttachP(w.p, s, policy), books := w.books[s := Book(0, [], 0, gets)]))
  {
    hide Count, Account, Conserved, Given;
    AttachGiven(w, s, gets);
    var list, p' := [s] + w.p.list, AttachP(w.p, s, policy);
    var books' := w.books[s := Book(0, [], 0, gets)];
    AttachConserves(w, s, policy, books');
    FirstAccount(policy, gets, w.p.latest, w.total);
    forall t | t in p'.sinks ensures Account(p'.sinks[t], books'[t], t in list, w.p.latest, w.total) {
      if t != s {
        assert (t in list) == (t in w.p.list);
        assert Account(w.p.sinks[t], w.books[t], t in w.p.list, w.p.latest, w.total);
      }
    }
  }

  lemma AttachGiven(w: World, s: SinkId, gets: bool)
    requires Inv(w) && Count(w.tokens, OwnedBy(s)) == 0
    ensures Given(w.nums, w.tokens, w.books[s := Book(0, [], 0, gets)])
  {
    CountZero(w.tokens, OwnedBy(s));
    hide Count, GivenAt, Account, Conserved;
    forall k | 0 <= k < |w.tokens| ensures w.tokens[k].owner != Some(s) {
      assert !OwnedBy(s)(w.tokens[k]);
    }
  }

  lemma FirstAccount(policy: Policy, gets: bool, latest: int, total: nat)
    ensures Account(Sink(policy, false, None, 0, 0, 0, 0), Book(0, [], 0, gets), true, latest, total)
  {
  }

  lemma AttachConserves(w: World, s: SinkId, policy: Policy, books: map<SinkId, Book>)
    requires Conserved(w) && Count(w.tokens, OwnedBy(s)) == 0
    ensures Conserved(w.(p := AttachP(w.p, s, policy), books := books))
  {
    hide Count;
    CountLess(w.tokens, s);
    CountZero(w.tokens, OwnedBy(s));
  }

  lemma {:induction false} CountLess(ts: seq<Token>, s: SinkId)
    ensures Count(ts, WaitingFor(s)) <= Count(ts, OwnedBy(s))
  {
    if ts == [] {
    } else {
      CountLess(ts[1..], s);
    }
  }

  lemma StartKeeps(w: World, k: nat)
    requires Inv(w) && k < |w.tokens| && w.tokens[k].stage == Owed
    ensures Inv(w.(tokens := w.tokens[k := w.tokens[k].(stage := Held)]))
  {
    hide Count, Account, SlotPins, SinkPins, Pendings, Sound;
    Restaged(w.p, w.tokens, k, Held);
    RestagedPendings(w.p.sinks, w.tokens, k);
  }

  lemma FinishKeeps(w: World, s: SinkId, failed: bool)
    requires Inv(w) && s in w.p.sinks
    ensures Inv(w.(p := ConsumedP(w.p, s, failed)))
  {
    hide Count, Account, SlotPins, SinkPins, Pendings;
    var k := ConsumedP(w.p, s, failed).sinks[s];
    PinsTouched(w.p.sinks, w.tokens, s, k);
    PendingTouched(w.p.sinks, w.tokens, s, k);
    ConsumedAccount(w.p.sinks[s], w.books[s], s in w.p.list, w.p.latest, w.total, k);
  }

  lemma ConsumedAccount(k: Sink, b: Book, attached: bool, latest: int, total: nat, k': Sink)
    requires Account(k, b, attached, latest, total) && k' == k.(errors := k'.errors, delivered := k'.delivered)
    ensures Account(k', b, attached, latest, total)
  {
  }

  /** A pin that is really held comes off: slots being filled are not affected. */
  lemma UnpinSound(p: Pipe, s: Option<SinkId>, i: nat)
    requires Sound(p) && i < |p.slots| && p.slots[i].refcount > 0 && (s.Some? ==> s.value in p.sinks)
    ensures var u := Unpin(p, s, i);
            && Sound(u) && SameStamps(p.slots, u.slots)
            && u == p.(slots := u.slots, sinks := u.sinks) && p.latest < |p.slots|
  {
  }

  lemma PinSound(p: Pipe, s: Option<SinkId>, i: nat)
    requires Sound(p) && i < |p.slots| && !p.slots[i].filling && (s.Some? ==> s.value in p.sinks)
    ensures var u := Pin1(p, s, i);
            && Sound(u) && SameStamps(p.slots, u.slots)
            && u == p.(slots := u.slots, sinks := u.sinks) && p.latest < |p.slots|
  {
  }

  lemma GetKeeps(w: World, k: nat)
    requires Inv(w) && Enabled(w, Get(k))
    ensures Inv(Next(w, Get(k)))
  {
    hide Count, Account, SlotPins, SinkPins, Pendings, Sound, Pin1;
    var t := w.tokens[k];
    var s := t.owner.value;
    HeldSlot(w, k);
    PinDropped(w.p, w.tokens, k);
    PinAdded(w.p, w.tokens, t.owner, t.slot, Held);
    PinSound(w.p, t.owner, t.slot);
    PendingsPush(w.p.sinks, w.tokens, t);
    PinsOnly(w.p, w.tokens + [t], s, t.slot);
    PinRecord(w.p, s, t.slot);
    GetAccount(w.p.sinks[s], w.books[s], s in w.p.list, w.p.latest, w.total);
  }

  lemma PinRecord(p: Pipe, s: SinkId, i: nat)
    requires i < |p.slots| && s in p.sinks
    ensures Pin1(p, Some(s), i).sinks == p.sinks[s := p.sinks[s].(pins := p.sinks[s].pins + 1)]
  {
  }

  lemma GetAccount(k: Sink, b: Book, attached: bool, latest: int, total: nat)
    requires Account(k, b, attached, latest, total) && b.gets
    ensures Account(k.(pins := k.pins + 1), b, attached, latest, total)
  {
  }

  /** A pinned slot is a valid one that is not being filled. */
  lemma HeldSlot(w: World, k: nat)
    requires Inv(w) && k < |w.tokens|
    ensures w.tokens[k].slot < |w.p.slots| && !w.p.slots[w.tokens[k].slot].filling
    ensures w.tokens[k].owner.Some? ==> w.tokens[k].owner.value in w.p.sinks
  {
    PinDropped(w.p, w.tokens, k);
  }

  lemma PinLatestKeeps(w: World)
    requires Inv(w)
    ensures Inv(Next(w, PinLatest))
  {
    hide Count, Account, SlotPins, SinkPins, Pendings;
    if w.p.latest >= 0 {
      PinAdded(w.p, w.tokens, None, w.p.latest, Held);
      PinSound(w.p, None, w.p.latest);
      PendingsPush(w.p.sinks, w.tokens, Token(None, w.p.latest, Held));
    }
  }

  /** Detaching reports exactly the pins the sink still holds. */
  lemma DetachKeeps(w: World, s: SinkId)
    requires Inv(w) && s in w.p.sinks
    ensures Inv(DetachW(w, s))
    ensures s !in DetachW(w, s).p.list
    ensures DetachP(w.p, s).1 == Count(DetachW(w, s).tokens, OwnedBy(s))
  {
    hide Count, Account, SlotPins, Pendings, Unpin, IndexOf, Given;
    DetachGiven(w, s);
    var p1 := w.p.(list := Unlink(w.p.list, s));
    var k := w.p.sinks[s];
    DetachAccounts(w, s);
    if k.pending.Some? {
      WaiterExists(w, s);
      var x := IndexOf(w.tokens, WaitingFor(s));
      var i := w.tokens[x].slot;
      PinDropped(p1, w.tokens, x);
      UnpinSound(p1, Some(s), i);
      UnpinKeeps(p1, s, i);
      UnpinPendings(p1, w.tokens, s, i);
      var u, ts := Unpin(p1, Some(s), i), Without(w.tokens, x);
      var k' := u.sinks[s].(pending := None);
      PendingCleared(u.sinks, w.tokens, s, k', x);
      PinsTouched(u.sinks, ts, s, k');
    }
    var w' := DetachW(w, s);
    assert s in w'.p.sinks && w'.p.sinks[s].pins == Count(w'.tokens, OwnedBy(s));
  }

  lemma DetachGiven(w: World, s: SinkId)
    requires Inv(w) && s in w.p.sinks
    ensures var w' := DetachW(w, s); Given(w'.nums, w'.tokens, w'.books) && Labelled(w'.p.slots, w'.nums, w'.lens)
  {
    hide Count, Account, SinkPins, Pendings, IndexOf, GivenAt, Given, Labelled;
    var p' := DetachP(w.p, s).0;
    LabelledSame(w.p.slots, p'.slots, w.nums, w.lens);
    if w.p.sinks[s].pending.Some? {
      WaiterExists(w, s);
      GivenRemove(w.nums, w.tokens, IndexOf(w.tokens, WaitingFor(s)), w.books);
    }
  }

  lemma DetachAccounts(w: World, s: SinkId)
    requires Inv(w) && s in w.p.sinks
    ensures var p' := DetachP(w.p, s).0;
            Accounts(p'.sinks, w.books, p'.list, p'.latest, w.total)
  {
    hide Count;
  }

  /** Putting a pin: the clamps never fire, and a pending frame becomes the next delivery. */
  lemma PutKeeps(w: World, k: nat)
    requires Inv(w) && k < |w.tokens| && w.tokens[k].stage == Held
    ensures Inv(PutW(w, k))
  {
    hide Count, Accounts, SlotPins, SinkPins, Pendings, Unpin, IndexOf, Sound;
    var t := w.tokens[k];
    HeldSlot(w, k);
    PinDropped(w.p, w.tokens, k);
    PendingsRemove(w.p.sinks, w.tokens, k);
    UnpinSound(w.p, t.owner, t.slot);
    if t.owner.None? {
      UnpinAnonymous(w.p, t.slot);
    } else {
      PutSinkKeeps(w, k, t.owner.value);
    }
  }

  lemma UnpinAnonymous(p: Pipe, i: nat)
    requires i < |p.slots|
    ensures Unpin(p, None, i).sinks == p.sinks
  {
  }

  lemma PutSinkKeeps(w: World, k: nat, s: SinkId)
    requires Inv(w) && k < |w.tokens| && w.tokens[k].stage == Held && w.tokens[k].owner == Some(s) && s in w.p.sinks
    ensures Inv(PutW(w, k))
  {
    hide Count, Accounts, SlotPins, SinkPins, Pendings, Unpin, IndexOf, Sound, Given;
    HeldSlot(w, k);
    PutGiven(w, k, s);
    var i := w.tokens[k].slot;
    var u, rest := Unpin(w.p, Some(s), i), Without(w.tokens, k);
    PinDropped(w.p, w.tokens, k);
    PendingsRemove(w.p.sinks, w.tokens, k);
    UnpinSound(w.p, Some(s), i);
    UnpinKeeps(w.p, s, i);
    UnpinPendings(w.p, rest, s, i);
    PutAccounts(w, k, s);
    var c := u.sinks[s];
    if c.pending.Some? {
      PutWaiter(w, k);
      var x := IndexOf(rest, WaitingFor(s));
      var k' := c.(pending := None, busy := true);
      SinkSound(u, s, k');
      Restaged(u, rest, x, Owed);
      PinsTouched(u.sinks, rest[x := rest[x].(stage := Owed)], s, k');
      PendingStarted(u.sinks, rest, s, k', x);
    } else {
      var k' := c.(busy := false);
      SinkSound(u, s, k');
      PinsTouched(u.sinks, rest, s, k');
      PendingTouched(u.sinks, rest, s, k');
    }
  }

  /** The pending frame that becomes the next delivery is the newest one. */
  lemma PutGiven(w: World, k: nat, s: SinkId)
    requires Inv(w) && k < |w.tokens| && w.tokens[k].stage == Held && w.tokens[k].owner == Some(s) && s in w.p.sinks
    ensures var w' := PutW(w, k); Given(w'.nums, w'.tokens, w'.books) && Labelled(w'.p.slots, w'.nums, w'.lens)
  {
    hide Count, SlotPins, SinkPins, Unpin, IndexOf, Sound, Given, GivenAt, Accounts, Labelled;
    HeldSlot(w, k);
    PinDropped(w.p, w.tokens, k);
    var i := w.tokens[k].slot;
    var u, rest := Unpin(w.p, Some(s), i), Without(w.tokens, k);
    UnpinSound(w.p, Some(s), i);
    UnpinKeeps(w.p, s, i);
    LabelledSame(w.p.slots, u.slots, w.nums, w.lens);
    GivenRemove(w.nums, w.tokens, k, w.books);
    if u.sinks[s].pending.Some? {
      PutWaiter(w, k);
      PendingsRemove(w.p.sinks, w.tokens, k);
      var x := IndexOf(rest, WaitingFor(s));
      PendingNewest(w, s);
      var b' := w.books[s].(starts := w.books[s].starts + [w.total]);
      HeldAlone(w, k, s);
      GivenBook(w.nums, rest, w.books, s, b');
      GivenNewest(w.total, b');
      GivenRestaged(w.nums, rest, x, rest[x].(stage := Owed), w.books[s := b']);
    }
  }

  /** Putting a pin while a frame is pending starts that frame, the newest one: its number is
      the sink's newest, and the `consume` owed is of the slot stamped with its generation. */
  lemma PutGives(w: World, k: nat, s: SinkId)
    requires Inv(w) && k < |w.tokens| && w.tokens[k].stage == Held && w.tokens[k].owner == Some(s)
    requires s in w.p.sinks && s in w.books && w.p.sinks[s].pending.Some?
    ensures var w', i := PutW(w, k), w.p.sinks[s].pending.value;
            && PutP(w.p, Some(s), w.tokens[k].slot).1 == Some(i)
            && i == w.p.latest < |w'.p.slots|
            && w'.p.slots[i].gen == w.total % TWO32 && 0 < w.total == |w.lens| && w'.p.slots[i].bytes == w.lens[w.total - 1]
            && s in w'.books && w'.books[s].starts == w.books[s].starts + [w.total]
            && Token(Some(s), i, Owed) in w'.tokens
  {
    hide Count, SlotPins, SinkPins, IndexOf, Given, Account, Accounts;
    PendingNewest(w, s);
    HeldSlot(w, k);
    PutWaiter(w, k);
    PendingsRemove(w.p.sinks, w.tokens, k);
    var rest := Without(w.tokens, k);
    var x := IndexOf(rest, WaitingFor(s));
    assert PutW(w, k).tokens[x] == Token(Some(s), w.p.sinks[s].pending.value, Owed);
  }

  lemma PendingNewest(w: World, s: SinkId)
    requires Inv(w) && s in w.p.sinks && w.p.sinks[s].pending.Some?
    ensures var i := w.p.sinks[s].pending.value;
            && s in w.books && i == w.p.latest && i < |w.p.slots| && |w.nums| == |w.p.slots|
            && w.nums[i] == w.total == |w.lens| > 0
            && w.p.slots[i].gen == w.total % TWO32 && w.p.slots[i].bytes == w.lens[w.total - 1]
  {
    hide Conserved, Given;
    assert Account(w.p.sinks[s], w.books[s], s in w.p.list, w.p.latest, w.total);
  }

  /** A sink without extra pins that puts its frame then holds at most its pending pin. */
  lemma HeldAlone(w: World, k: nat, s: SinkId)
    requires Inv(w) && k < |w.tokens| && w.tokens[k].stage == Held && w.tokens[k].owner == Some(s) && s in w.p.sinks
    requires w.p.sinks[s].pending.Some?
    ensures s in w.books
    ensures w.books[s].gets || forall j :: 0 <= j < |Without(w.tokens, k)| && Without(w.tokens, k)[j].owner == Some(s) ==>
              Without(w.tokens, k)[j].stage == Waiting
  {
    hide Count, SlotPins, Given, Without;
    assert Account(w.p.sinks[s], w.books[s], s in w.p.list, w.p.latest, w.total);
    var rest := Without(w.tokens, k);
    if !w.books[s].gets {
      TokensRemoved(w.tokens, k);
      CountSplit(rest, s);
      CountZero(rest, Delivering(s));
      forall j | 0 <= j < |rest| && rest[j].owner == Some(s) ensures rest[j].stage == Waiting {
        assert !Delivering(s)(rest[j]);
      }
    }
  }

  lemma SinkSound(p: Pipe, s: SinkId, k: Sink)
    requires Sound(p) && s in p.sinks && (k.pending == p.sinks[s].pending || k.pending.None?)
    ensures Sound(p.(sinks := p.sinks[s := k]))
  {
  }

  /** A sink that holds a pin besides its pending one is busy, unless it took extra pins. */
  lemma PutAccounts(w: World, k: nat, s: SinkId)
    requires Inv(w) && k < |w.tokens| && w.tokens[k].stage == Held && w.tokens[k].owner == Some(s) && s in w.p.sinks
    ensures var w' := PutW(w, k);
            Accounts(w'.p.sinks, w'.books, w'.p.list, w'.p.latest, w'.total)
  {
    hide Count, Account, SlotPins, SinkPins, IndexOf;
    var i := w.tokens[k].slot;
    HeldSlot(w, k);
    PinDropped(w.p, w.tokens, k);
    PinsBeyondPending(w, k, s);
    var b := w.books[s];
    var w' := PutW(w, k);
    PutAccount(w.p.sinks[s], b, s in w.p.list, w.p.latest, w.total, w'.p.sinks[s]);
  }

  lemma PinsBeyondPending(w: World, k: nat, s: SinkId)
    requires Conserved(w) && k < |w.tokens| && w.tokens[k].stage == Held && w.tokens[k].owner == Some(s) && s in w.p.sinks
    ensures w.p.sinks[s].pins > B(w.p.sinks[s].pending.Some?)
    ensures w.p.sinks[s].pending.Some? ==> Count(Without(w.tokens, k), WaitingFor(s)) > 0
  {
    hide Count;
    TokensRemoved(w.tokens, k);
    CountLess(Without(w.tokens, k), s);
  }

  lemma PutAccount(c: Sink, b: Book, attached: bool, latest: int, total: nat, c': Sink)
    requires Account(c, b, attached, latest, total) && c.pins > B(c.pending.Some?)
    requires c' == c.(pins := c.pins - 1, pending := None, busy := c.pending.Some?)
    ensures Account(c', if c.pending.Some? then b.(starts := b.starts + [total]) else b, attached, latest, total)
  {
  }

  // ---- runs --------------------------------------------------------------------

  /** Whatever happens next, the invariant survives. */
  lemma EventKeeps(w: World, e: Event)
    requires Inv(w) && Enabled(w, e)
    ensures Inv(Next(w, e))
  {
    hide Inv, PublishW, DetachW, PutW;
    match e
    case Acquire => AcquireKeeps(w);
    case Publish(f, bytes) =>
    case Attach(s, policy, accepted, gets) =>
      if |w.p.list| < MAX_SINKS && accepted {
        AttachKeeps(w, s, policy, gets);
      }
    case Detach(s) => DetachKeeps(w, s);
    case Start(k) => StartKeeps(w, k);
    case Finish(s, failed) => FinishKeeps(w, s, failed);
    case Put(k) => PutKeeps(w, k);
    case Get(k) => GetKeeps(w, k);
    case PinLatest => PinLatestKeeps(w);
  }

  /** The events can happen in this order. */
  ghost predicate Possible(w: World, es: seq<Event>)
    requires Inv(w)
    decreases |es|
  {
    es == [] || (Enabled(w, es[0]) && (EventKeeps(w, es[0]); Possible(Next(w, es[0]), es[1..])))
  }

  /** Every run keeps the invariant. */
  ghost function After(w: World, es: seq<Event>): (w': World)
    requires Inv(w) && Possible(w, es)
    ensures Inv(w')
    decreases |es|
  {
    if es == [] then w else EventKeeps(w, es[0]); After(Next(w, es[0]), es[1..])
  }

  function Fresh(nslots: nat): World {
    World(Pipe(seq(nslots, _ => Slot(false, 0, 0, 0)), [], map[], -1, 0, 0, 0, 0), [], map[], 0, seq(nslots, _ => 0), [])
  }

  lemma FreshInv(nslots: nat)
    ensures Inv(Fresh(nslots))
  {
  }

  lemma DetachFrames(w: World, s: SinkId)
    requires Inv(w) && s in w.p.sinks
    ensures SameFrames(w.p, DetachW(w, s).p)
  {
    hide Count;
  }

  lemma PutFrames(w: World, k: nat)
    requires Inv(w) && k < |w.tokens| && w.tokens[k].stage == Held
    ensures SameFrames(w.p, PutW(w, k).p)
  {
    hide Count;
  }

  lemma PublishFrames(w: World, f: nat, bytes: u32)
    requires Inv(w) && f < |w.p.slots| && w.p.slots[f].filling
    ensures SameFrames(Stamp(w.p, f, bytes), PublishW(w, f, bytes).p)
  {
    hide Count, Account;
    PublishRefines(w, f, bytes, 0);
    OfferAllFrames(Stamp(w.p, f, bytes), w.p.list, f, 0);
  }

  /** A publish makes its frame the latest, no longer filling, with the next generation and the
      length given; exactly the ranges inside that length can then be read, and no other slot
      is touched but for its pins. */
  lemma PublishedReads(w: World, f: nat, bytes: u32, off: u32, len: u32)
    requires Inv(w) && Enabled(w, Publish(f, bytes))
    ensures var p := Next(w, Publish(f, bytes)).p;
            && |p.slots| == |w.p.slots| && p.latest == f && p.gen == p.published == (w.total + 1) % TWO32
            && p.slots[f].gen == p.gen && p.slots[f].bytes == bytes && !p.slots[f].filling
            && (ReadsOk(p, off, len) <==> 0 < len && off + len <= bytes)
            && forall i :: 0 <= i < |p.slots| && i != f ==> p.slots[i] == w.p.slots[i].(refcount := p.slots[i].refcount)
  {
    hide Count, PublishW, OfferAll, Accounts, Conserved, Given, Labelled;
    PublishFrames(w, f, bytes);
    PublishRefines(w, f, bytes, 0);
    StampedFormed(w, f, bytes);
    OfferAllRest(Stamp(w.p, f, bytes), w.p.list, f, 0);
    WordOffsets(w.total, 1);
    var a, b := Stamp(w.p, f, bytes), Next(w, Publish(f, bytes)).p;
    forall i | 0 <= i < |b.slots| ensures b.slots[i] == a.slots[i].(refcount := b.slots[i].refcount) {
      assert b.slots[i].(refcount := 0) == a.slots[i].(refcount := 0);
    }
  }

  /** A pinned frame, or the latest one, is left alone by every critical section: its slot is
      not handed out, not restamped, and not open for filling. */
  lemma PinnedStays(w: World, e: Event, i: nat)
    requires Inv(w) && Enabled(w, e) && i < |w.p.slots|
    requires w.p.slots[i].refcount > 0 || i == w.p.latest
    ensures var w' := Next(w, e);
            && i < |w'.p.slots| && !w'.p.slots[i].filling
            && w'.p.slots[i].(refcount := 0) == w.p.slots[i].(refcount := 0)
    ensures e.Acquire? ==> AcquireP(w.p).1 != Some(i)
  {
    hide Conserved, Accounts, PublishW, DetachW, PutW, Count;
    match e
    case Publish(f, bytes) => PublishFrames(w, f, bytes);
    case Detach(s) => DetachFrames(w, s);
    case Put(k) => PutFrames(w, k);
    case Get(k) => HeldSlot(w, k);
    case _ =>
  }

  /** Only the producer's own two operations change which slots are being filled. */
  lemma FillingChanges(w: World, e: Event)
    requires Inv(w) && Enabled(w, e)
    ensures var w' := Next(w, e);
            && |w'.p.slots| == |w.p.slots|
            && (forall i :: 0 <= i < |w.p.slots| ==>
                  w'.p.slots[i].filling ==
                    if e.Acquire? && AcquireP(w.p).1 == Some(i) then true
                    else if e.Publish? && e.f == i then false
                    else w.p.slots[i].filling)
  {
    hide Conserved, Accounts, PublishW, DetachW, PutW, Count;
    match e
    case Publish(f, bytes) => PublishFrames(w, f, bytes);
    case Detach(s) => DetachFrames(w, s);
    case Put(k) => PutFrames(w, k);
    case Get(k) => HeldSlot(w, k);
    case _ =>
  }

  /** Only a publish numbers a frame, and it numbers the one it stamps. */
  lemma FramesNumbered(w: World, e: Event)
    requires Inv(w) && Enabled(w, e)
    ensures var w' := Next(w, e);
            if e.Publish? then w'.lens == w.lens + [e.bytes] && w'.nums == w.nums[e.f := w.total + 1]
            else w'.lens == w.lens && w'.nums == w.nums
  {
    hide Conserved, Accounts, DetachP, PutP, Count, OfferAll, OfferAllW;
    match e
    case Publish(f, bytes) =>
      PublishStarts(w, f, bytes);
      OfferAllMatches(Stamped(w, f, bytes), w.p.list, f, w.p.latest, 0);
    case _ =>
  }

  /** The length an event publishes. */
  function NewLength(e: Event): seq<u32> { if e.Publish? then [e.bytes] else [] }

  /** The lengths a run publishes, in order. */
  function Lengths(es: seq<Event>): seq<u32> {
    if es == [] then [] else NewLength(es[0]) + Lengths(es[1..])
  }

  lemma {:induction false} RunLengths(w: World, es: seq<Event>)
    requires Inv(w) && Possible(w, es)
    ensures After(w, es).lens == w.lens + Lengths(es)
    decreases |es|
  {
    hide Inv, Next, Enabled, Lengths;
    LengthsStep(es);
    if es == [] {
      assert w.lens + [] == w.lens;
    } else {
      EventKeeps(w, es[0]);
      LensGrow(w, es[0]);
      RunLengths(Next(w, es[0]), es[1..]);
      Regroup(w.lens, NewLength(es[0]), Lengths(es[1..]));
    }
  }

  lemma LengthsStep(es: seq<Event>)
    ensures Lengths(es) == if es == [] then [] else NewLength(es[0]) + Lengths(es[1..])
  {
  }

  lemma LensGrow(w: World, e: Event)
    requires Inv(w) && Enabled(w, e)
    ensures Next(w, e).lens == w.lens + NewLength(e)
  {
    hide Inv, Next, Enabled;
    FramesNumbered(w, e);
    assert w.lens + [] == w.lens;
  }

  lemma Regroup<T>(a: seq<T>, b: seq<T>, c: seq<T>)
    ensures (a + b) + c == a + (b + c)
  {
  }

  /** Every run from a fresh ring: a slot owed to or held by a sink, by a reader or as a pending
      frame was stamped by one of the run's publishes, and carries its generation and length. */
  lemma PinnedLength(nslots: nat, es: seq<Event>, k: nat)
    requires Inv(Fresh(nslots)) && Possible(Fresh(nslots), es) && k < |After(Fresh(nslots), es).tokens|
    requires After(Fresh(nslots), es).tokens[k].owner.Some? && After(Fresh(nslots), es).tokens[k].stage != Waiting
    ensures var w := After(Fresh(nslots), es);
            && w.tokens[k].slot < |w.p.slots| == |w.nums| && w.tokens[k].owner.value in w.books
            && var slot, n, book := w.p.slots[w.tokens[k].slot], w.nums[w.tokens[k].slot], w.books[w.tokens[k].owner.value];
               && 0 < n <= |Lengths(es)| && slot.gen == n % TWO32 && slot.bytes == Lengths(es)[n - 1]
               && n in book.starts && (!book.gets ==> n == book.starts[|book.starts| - 1])
  {
    hide Sound, Accounts, Conserved, After, Possible, Count;
    RunLengths(Fresh(nslots), es);
    assert [] + Lengths(es) == Lengths(es);
  }

  // ---- what a sink can rely on -------------------------------------------------

  /** In every reachable world, for a sink that takes no extra pins: at most one delivery is
      outstanding, and the slot it is owed or holds carries the generation of the newest frame
      it was given.  For every sink: every slot it is owed or holds carries the generation of a
      frame it was given, and these are ever newer.  For every attached sink: each frame
      published since it was attached was started, dropped or is pending; its pending frame is
      the newest published, and a LATEST sink with nothing in flight has been given the newest. */
  lemma SinkGuarantees(w: World, s: SinkId)
    requires Inv(w) && s in w.p.sinks && s in w.books
    ensures !w.books[s].gets ==> Count(w.tokens, Delivering(s)) == B(w.p.sinks[s].busy) <= 1
    ensures forall k :: 0 <= k < |w.tokens| && Delivering(s)(w.tokens[k]) ==>
              && w.tokens[k].slot < |w.p.slots| == |w.nums|
              && var slot, n := w.p.slots[w.tokens[k].slot], w.nums[w.tokens[k].slot];
                 && 0 < n <= |w.lens| && slot.gen == n % TWO32 && slot.bytes == w.lens[n - 1]
                 && n in w.books[s].starts && (!w.books[s].gets ==> n == w.books[s].starts[|w.books[s].starts| - 1])
    ensures Rising(w.books[s].starts)
    ensures s in w.p.list ==>
              w.books[s].offered == |w.books[s].starts| + w.books[s].dropped + B(w.p.sinks[s].pending.Some?)
    ensures w.p.sinks[s].pending.Some? ==>
              && w.p.sinks[s].pending.value == w.p.latest < |w.p.slots| && 0 < w.total == |w.lens|
              && w.p.slots[w.p.latest].gen == w.total % TWO32 == w.p.gen
              && w.p.slots[w.p.latest].bytes == w.lens[w.total - 1]
    ensures s in w.p.list && w.p.sinks[s].policy == KeepLatest && !w.p.sinks[s].busy && w.books[s].offered > 0 ==>
              var starts := w.books[s].starts;
              starts != [] && starts[|starts| - 1] == w.total
  {
    hide Count;
    assert Account(w.p.sinks[s], w.books[s], s in w.p.list, w.p.latest, w.total);
    CountSplit(w.tokens, s);
  }
}
