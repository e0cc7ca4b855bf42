/**
 The recording session (`record`): read frames from the bus until the interrupt
 flag is set, a fatal read error occurs or the optional event limit is reached,
 storing every frame in the journal under its capture key and mirroring it into
 its PGN's namespace. The bus, the clock and the interrupt flag are the
 environment: a session is driven by a sequence of ticks saying, per pass of the
 loop, whether the flag is set, what the read returned and what the clock read.
 */
module Recorder {
  import opened BigEndian
  import opened Pgn
  import opened Codec
  import opened Store
  import opened Options

  /** What one `read_frame` call returns. */
  datatype ReadOutcome =
    | Read(frame: Frame)
      /** A would-block or timed-out read (`should_retry`) or an `Interrupted` one: go round again. */
    | Retry
      /** Any other read error: the session ends with that error. */
    | Fatal

  /** One pass of the loop: the interrupt flag as the loop reads it, the read, and the clock at the read. */
  datatype Tick = Tick(cancelled: bool, read: ReadOutcome, now: u128)

  /** Why a session ended. `Exhausted` only means the given ticks were used up. */
  datatype Stop = Cancelled | LimitReached | Failed | Exhausted

  /** A frame stored at a given time. */
  datatype Capture = Capture(now: u128, frame: Frame)

  function KeyOf(c: Capture): Key
  {
    EncodeKey(c.now)
  }

  function ValueOf(c: Capture): (v: Value)
    ensures Decodable(v) && DecodeValue(v) == c.frame && ValuePgn(v) == PgnFromDbc(c.frame.id)
  {
    DecodeEncodeValue(c.frame.id, c.frame.data);
    EncodeValue(c.frame.id, c.frame.data)
  }

  /** The frames the given ticks store, in order: one per successful read. */
  function Captures(ticks: seq<Tick>): (cs: seq<Capture>)
    ensures |cs| <= |ticks|
  {
    if ticks == [] then []
    else
      var t := ticks[|ticks| - 1];
      Captures(ticks[..|ticks| - 1]) + if t.read.Read? then [Capture(t.now, t.read.frame)] else []
  }

  /** The keys the captures are stored under. */
  function KeysOf(cs: seq<Capture>): set<Key>
  {
    set i | 0 <= i < |cs| :: KeyOf(cs[i])
  }

  /** The journal after storing the captures in order (`db.insert(k, v)` each time). */
  function PutAll(journal: Journal, cs: seq<Capture>): (r: Journal)
    ensures r.Keys == journal.Keys + KeysOf(cs)
  {
    if cs == [] then journal
    else
      var c := cs[|cs| - 1];
      var r := PutAll(journal, cs[..|cs| - 1])[KeyOf(c) := ValueOf(c)];
      KeysOfSnoc(cs);
      r
  }

  /** The keys of a non-empty run of captures are those of all but the last, and the last one's. */
  lemma KeysOfSnoc(cs: seq<Capture>)
    requires cs != []
    ensures KeysOf(cs) == KeysOf(cs[..|cs| - 1]) + {KeyOf(cs[|cs| - 1])}
  {
    var init := cs[..|cs| - 1];
    forall k | k in KeysOf(cs) ensures k in KeysOf(init) + {KeyOf(cs[|cs| - 1])} {
      var i :| 0 <= i < |cs| && KeyOf(cs[i]) == k;
      if i < |cs| - 1 {
        assert KeyOf(init[i]) == k;
      }
    }
    forall k | k in KeysOf(init) ensures k in KeysOf(cs) {
      var i :| 0 <= i < |init| && KeyOf(init[i]) == k;
      assert KeyOf(cs[i]) == k;
    }
  }

  /** The namespaces after mirroring the captures in order into their PGNs' namespaces. */
  function IndexAll(trees: Trees, cs: seq<Capture>): (r: Trees)
    ensures trees.Keys <= r.Keys
  {
    if cs == [] then trees
    else
      var c := cs[|cs| - 1];
      IndexInsert(IndexAll(trees, cs[..|cs| - 1]), PgnFromDbc(c.frame.id), KeyOf(c), ValueOf(c))
  }

  /** No two captures share a timestamp and none reuses a key already in the journal. */
  ghost predicate FreshCaptures(journal: Journal, cs: seq<Capture>)
  {
    && (forall i :: 0 <= i < |cs| ==> KeyOf(cs[i]) !in journal)
    && (forall i, j :: 0 <= i < j < |cs| ==> cs[i].now != cs[j].now)
  }

  /** Captures taken at strictly increasing times. */
  ghost predicate InTimeOrder(cs: seq<Capture>)
  {
    forall i, j :: 0 <= i < j < |cs| ==> cs[i].now < cs[j].now
  }

  /** Captures at increasing times into an empty journal never reuse a key. */
  lemma TimeOrderIsFresh(cs: seq<Capture>)
    requires InTimeOrder(cs)
    ensures FreshCaptures(map[], cs)
  {
  }

  /** Ticks whose successful reads saw a strictly increasing clock. */
  ghost predicate ReadsInTimeOrder(ticks: seq<Tick>)
  {
    forall i, j :: 0 <= i < j < |ticks| && ticks[i].read.Read? && ticks[j].read.Read? ==> ticks[i].now < ticks[j].now
  }

  /**
   The frames stored from ticks whose reads saw a strictly increasing clock are in
   time order, and each was captured at the time of one of those reads.
   */
  lemma {:induction false} CapturesInTimeOrder(ticks: seq<Tick>)
    requires ReadsInTimeOrder(ticks)
    ensures InTimeOrder(Captures(ticks))
    ensures forall c :: c in Captures(ticks) ==> exists i :: 0 <= i < |ticks| && ticks[i].read.Read? && ticks[i].now == c.now
  {
    if ticks != [] {
      var init, t := ticks[..|ticks| - 1], ticks[|ticks| - 1];
      assert forall i :: 0 <= i < |init| ==> init[i] == ticks[i];
      CapturesInTimeOrder(init);
      var before := Captures(init);
      forall c | c in before ensures exists i :: 0 <= i < |ticks| && ticks[i].read.Read? && ticks[i].now == c.now {
        var i :| 0 <= i < |init| && init[i].read.Read? && init[i].now == c.now;
        assert ticks[i] == init[i];
      }
      if t.read.Read? {
        forall c | c in before ensures c.now < t.now {
          var i :| 0 <= i < |init| && init[i].read.Read? && init[i].now == c.now;
          assert ticks[i] == init[i];
        }
        var cs := before + [Capture(t.now, t.read.frame)];
        forall i, j | 0 <= i < j < |cs| ensures cs[i].now < cs[j].now {
          assert cs[i] == before[i] && before[i] in before;
          if j < |before| {
            assert cs[j] == before[j];
          }
        }
      }
    }
  }

  /**
   A session whose reads see a strictly increasing clock and whose keys are all new
   to the journal it starts from stores every frame under a fresh key.
   */
  lemma SessionCapturesFresh(journal0: Journal, ticks: seq<Tick>, n: nat)
    requires n <= |ticks| && ReadsInTimeOrder(ticks)
    requires forall i :: 0 <= i < |ticks| && ticks[i].read.Read? ==> EncodeKey(ticks[i].now) !in journal0
    ensures FreshCaptures(journal0, Captures(ticks[..n]))
  {
    var done := ticks[..n];
    assert forall i :: 0 <= i < |done| ==> done[i] == ticks[i];
    CapturesInTimeOrder(done);
    var cs := Captures(done);
    forall i | 0 <= i < |cs| ensures KeyOf(cs[i]) !in journal0 {
      assert cs[i] in cs;
      var j :| 0 <= j < |done| && done[j].read.Read? && done[j].now == cs[i].now;
      assert ticks[j] == done[j];
    }
  }

  /**
   After a session over such ticks, the store keeps the mirror and the journal has
   grown by the number of frames stored.
   */
  lemma SessionKeepsMirror(journal0: Journal, trees0: Trees, ticks: seq<Tick>, n: nat)
    requires Mirror(journal0, trees0)
    requires n <= |ticks| && ReadsInTimeOrder(ticks)
    requires forall i :: 0 <= i < |ticks| && ticks[i].read.Read? ==> EncodeKey(ticks[i].now) !in journal0
    ensures Mirror(PutAll(journal0, Captures(ticks[..n])), IndexAll(trees0, Captures(ticks[..n])))
    ensures |PutAll(journal0, Captures(ticks[..n]))| == |journal0| + |Captures(ticks[..n])|
  {
    SessionCapturesFresh(journal0, ticks, n);
    PutAllMirror(journal0, trees0, Captures(ticks[..n]));
    PutAllSize(journal0, Captures(ticks[..n]));
  }

  /** Some(0) still records one frame: the limit is checked only after a frame has been stored. */
  function EffectiveLimit(c: nat): (n: nat)
    ensures n >= 1 && n >= c
    ensures c >= 1 ==> n == c
    ensures c == 0 ==> n == 1
  {
    if c == 0 then 1 else c
  }

  /**
   Where a session stops, continuing from tick `i` with `n` frames stored: a set
   flag stops it before the read; a fatal read stops it after; a stored frame that
   brings the count to the limit stops it after. The pair is the reason and the
   number of ticks whose read was attempted.
   */
  function SessionFrom(ticks: seq<Tick>, i: nat, n: nat, limit: Option<nat>): (r: (Stop, nat))
    requires i <= |ticks|
    ensures i <= r.1 <= |ticks|
    decreases |ticks| - i
  {
    if i == |ticks| then (Exhausted, i)
    else
      var t := ticks[i];
      if t.cancelled then (Cancelled, i)
      else if t.read.Fatal? then (Failed, i + 1)
      else if t.read.Read? && limit.Some? && n + 1 >= limit.value then (LimitReached, i + 1)
      else SessionFrom(ticks, i + 1, if t.read.Read? then n + 1 else n, limit)
  }

  /** Where a session over the ticks stops, from a counter of zero. */
  function Session(ticks: seq<Tick>, limit: Option<nat>): (r: (Stop, nat))
    ensures r.1 <= |ticks|
  {
    SessionFrom(ticks, 0, 0, limit)
  }

  class Recorder {
    /** The default namespace of the store. */
    var journal: Journal
    /** The PGN namespaces of the store. */
    var trees: Trees
    /** The session's cache of opened namespace handles (the `Forest`), by PGN. */
    var forest: set<u32>
    /** Every `open_tree` call of the session, in order. */
    ghost var openLog: seq<u32>
    /** The number of frames stored in the session (`i`). */
    var recorded: nat

    ghost predicate Valid()
      reads this
    {
      && forest <= trees.Keys
      && (forall i, j :: 0 <= i < j < |openLog| ==> openLog[i] != openLog[j])
      && (forall p :: p in forest <==> p in openLog)
    }

    /** Opens a store holding the given namespaces, as `sled::open` does. */
    constructor Open(journal: Journal, trees: Trees)
      ensures Valid()
      ensures this.journal == journal && this.trees == trees
      ensures forest == {} && openLog == [] && recorded == 0
    {
      this.journal := journal;
      this.trees := trees;
      forest := {};
      openLog := [];
      recorded := 0;
    }

    /**
     The handle of PGN `p`'s namespace from the session cache: a cached handle is
     reused; otherwise the namespace is opened (and created empty if it is new)
     and its handle cached.
     */
    method OpenTree(p: u32)
      requires Valid()
      modifies this
      ensures Valid() && p in forest && p in trees
      ensures trees == old(trees)[p := TreeOf(old(trees), p)]
      ensures forest == old(forest) + {p}
      ensures openLog == old(openLog) + if p in old(forest) then [] else [p]
      ensures journal == old(journal) && recorded == old(recorded)
    {
      if p !in forest {
        ghost var log0 := openLog;
        trees := trees[p := TreeOf(trees, p)];
        forest := forest + {p};
        openLog := openLog + [p];
        assert forall i :: 0 <= i < |log0| ==> openLog[i] == log0[i] != p;
      } else {
        assert trees == trees[p := TreeOf(trees, p)];
      }
    }

    /**
     Stores a captured frame: under the key of its timestamp in the journal and
     in its PGN's namespace, whose handle is opened on first use and cached, and
     counts it.
     */
    method Store(c: Capture)
      requires Valid()
      modifies this
      ensures Valid()
      ensures journal == old(journal)[KeyOf(c) := ValueOf(c)]
      ensures trees == IndexInsert(old(trees), PgnFromDbc(c.frame.id), KeyOf(c), ValueOf(c))
      ensures forest == old(forest) + {PgnFromDbc(c.frame.id)}
      ensures openLog == old(openLog) + (if PgnFromDbc(c.frame.id) in old(forest) then [] else [PgnFromDbc(c.frame.id)])
      ensures recorded == old(recorded) + 1
    {
      var k, v, p := KeyOf(c), ValueOf(c), PgnFromDbc(c.frame.id);
      ghost var trees0 := trees;
      journal := journal[k := v];
      OpenTree(p);
      InsertAfterOpen(trees0, trees, p, k, v);
      trees := trees[p := trees[p][k := v]];
      recorded := recorded + 1;
    }

    /**
     One read's effect: a frame is stored (`Store`); a retryable or fatal read
     changes nothing. `ok` is false for a fatal read.
     */
    method RecordStep(read: ReadOutcome, now: u128) returns (ok: bool)
      requires Valid()
      modifies this
      ensures Valid()
      ensures ok <==> !read.Fatal?
      ensures !read.Read? ==>
        journal == old(journal) && trees == old(trees) && forest == old(forest) &&
        openLog == old(openLog) && recorded == old(recorded)
      ensures read.Read? ==>
        var c := Capture(now, read.frame);
        var p := PgnFromDbc(read.frame.id);
        && journal == old(journal)[KeyOf(c) := ValueOf(c)]
        && trees == IndexInsert(old(trees), p, KeyOf(c), ValueOf(c))
        && forest == old(forest) + {p}
        && openLog == old(openLog) + (if p in old(forest) then [] else [p])
        && recorded == old(recorded) + 1
    {
      match read
      case Retry => ok := true;
      case Fatal => ok := false;
      case Read(f) =>
        Store(Capture(now, f));
        ok := true;
    }

    /** The store holds what the session started from with the frames of `ts` stored and mirrored. */
    ghost predicate Holds(journal0: Journal, trees0: Trees, ts: seq<Tick>)
      reads this
    {
      var done := Captures(ts);
      && journal == PutAll(journal0, done)
      && trees == IndexAll(trees0, done)
      && recorded == |done|
    }

    /**
     One pass of the loop: the flag check, the read, for a frame its storage, and
     the limit check. `next` is the reason to leave the loop, if there is one, and
     `j` the number of ticks consumed after the pass; both are what `SessionFrom`
     gives for this tick.
     */
    method Pass(ticks: seq<Tick>, i: nat, limit: Option<nat>, ghost journal0: Journal, ghost trees0: Trees)
      returns (next: Option<Stop>, j: nat)
      requires i < |ticks| && Valid() && Holds(journal0, trees0, ticks[..i])
      modifies this
      ensures Valid() && j <= |ticks| && Holds(journal0, trees0, ticks[..j])
      ensures next.Some? ==> SessionFrom(ticks, i, old(recorded), limit) == (next.value, j)
      ensures next.None? ==> j == i + 1 && SessionFrom(ticks, i, old(recorded), limit) == SessionFrom(ticks, j, recorded, limit)
    {
      var t := ticks[i];
      if t.cancelled {
        SessionFromCancelled(ticks, i, recorded, limit);
        return Some(Cancelled), i;
      }
      ghost var journal1, trees1, recorded1 := journal, trees, recorded;
      var ok := RecordStep(t.read, t.now);
      StateAdvance(journal0, trees0, ticks[..i], t, journal1, trees1, recorded1, journal, trees, recorded);
      assert ticks[..i + 1] == ticks[..i] + [t];
      j := i + 1;
      if !ok {
        next := Some(Failed);
      } else if t.read.Read? && limit.Some? && recorded >= limit.value {
        next := Some(LimitReached);
      } else {
        next := None;
      }
    }

    /**
     The `record` loop over the given ticks, with an optional event limit: a fresh
     cache and counter, then one pass per tick until the flag is seen set, a read
     fails fatally, the limit is reached, or the ticks run out. `consumed` is the
     number of ticks whose read was attempted; where the loop stops is `Session`.
     */
    method Record(ticks: seq<Tick>, limit: Option<nat>) returns (stop: Stop, consumed: nat)
      modifies this
      ensures Valid()
      ensures (stop, consumed) == Session(ticks, limit)
      ensures consumed <= |ticks|
      ensures Holds(old(journal), old(trees), ticks[..consumed])
    {
      forest := {};
      openLog := [];
      recorded := 0;
      consumed := 0;
      stop := Exhausted;
      ghost var goal := Session(ticks, limit);
      while consumed < |ticks|
        invariant Valid()
        invariant consumed <= |ticks|
        invariant Holds(old(journal), old(trees), ticks[..consumed])
        invariant SessionFrom(ticks, consumed, recorded, limit) == goal
      {
        var next;
        next, consumed := Pass(ticks, consumed, limit, old(journal), old(trees));
        if next.Some? {
          stop := next.value;
          break;
        }
      }
      if stop == Exhausted {
        SessionFromExhausted(ticks, recorded, limit);
      }
    }
  }

  /** A pass that finds the flag set ends the session there. */
  lemma SessionFromCancelled(ticks: seq<Tick>, i: nat, n: nat, limit: Option<nat>)
    requires i < |ticks| && ticks[i].cancelled
    ensures SessionFrom(ticks, i, n, limit) == (Cancelled, i)
  {
  }

  /** With no ticks left the session is exhausted. */
  lemma SessionFromExhausted(ticks: seq<Tick>, n: nat, limit: Option<nat>)
    ensures SessionFrom(ticks, |ticks|, n, limit) == (Exhausted, |ticks|)
  {
  }

  /**
   What it means for a session over `ticks` to have stopped for `stop` after
   attempting `consumed` reads: no earlier pass saw the flag set or failed, the
   reason matches the last tick looked at, and the count of stored frames keeps
   to the limit, reaching it exactly when the limit is the reason.
   */
  ghost predicate StoppedAt(ticks: seq<Tick>, limit: Option<nat>, stop: Stop, consumed: nat)
  {
    && consumed <= |ticks|
    && (forall j :: 0 <= j < consumed ==> !ticks[j].cancelled)
    && (forall j :: 0 <= j < consumed - 1 ==> !ticks[j].read.Fatal?)
    && (stop == Failed <==> consumed > 0 && ticks[consumed - 1].read.Fatal?)
    && (stop == Cancelled ==> consumed < |ticks| && ticks[consumed].cancelled)
    && (stop == Exhausted ==> consumed == |ticks|)
    && (stop == LimitReached ==> limit.Some? && consumed > 0 && ticks[consumed - 1].read.Read?)
    && (limit.None? ==> stop != LimitReached)
    && (limit.Some? ==>
          && |Captures(ticks[..consumed])| <= EffectiveLimit(limit.value)
          && (stop == LimitReached <==> |Captures(ticks[..consumed])| == EffectiveLimit(limit.value)))
  }

  /** The state a session reaches after `i` passes that neither saw the flag set nor failed, with `n` frames stored. */
  ghost predicate Running(ticks: seq<Tick>, i: nat, n: nat, limit: Option<nat>)
  {
    && i <= |ticks|
    && (forall j :: 0 <= j < i ==> !ticks[j].cancelled && !ticks[j].read.Fatal?)
    && n == |Captures(ticks[..i])|
    && (limit.Some? ==> n < EffectiveLimit(limit.value))
  }

  /** Continuing a session from a point its earlier passes reached stops as `StoppedAt` says. */
  lemma {:induction false} SessionFromStops(ticks: seq<Tick>, i: nat, n: nat, limit: Option<nat>)
    requires Running(ticks, i, n, limit)
    ensures StoppedAt(ticks, limit, SessionFrom(ticks, i, n, limit).0, SessionFrom(ticks, i, n, limit).1)
    decreases |ticks| - i
  {
    if i == |ticks| {
      assert ticks[..i] == ticks;
    } else {
      var t := ticks[i];
      if t.cancelled {
      } else if t.read.Fatal? || (t.read.Read? && limit.Some? && n + 1 >= limit.value) {
        StopsAfterPass(ticks, i, n, limit);
      } else {
        PassKeepsRunning(ticks, i, n, limit);
        SessionFromStops(ticks, i + 1, if t.read.Read? then n + 1 else n, limit);
      }
    }
  }

  /** A pass that fails or stores the last frame the limit allows ends the session as `StoppedAt` says. */
  lemma StopsAfterPass(ticks: seq<Tick>, i: nat, n: nat, limit: Option<nat>)
    requires Running(ticks, i, n, limit) && i < |ticks| && !ticks[i].cancelled
    requires ticks[i].read.Fatal? || (ticks[i].read.Read? && limit.Some? && n + 1 >= limit.value)
    ensures StoppedAt(ticks, limit, SessionFrom(ticks, i, n, limit).0, SessionFrom(ticks, i, n, limit).1)
  {
    var t := ticks[i];
    assert ticks[..i + 1] == ticks[..i] + [t];
    CapturesSnoc(ticks[..i], t);
  }

  /** A pass that neither fails nor reaches the limit leaves the session running. */
  lemma PassKeepsRunning(ticks: seq<Tick>, i: nat, n: nat, limit: Option<nat>)
    requires Running(ticks, i, n, limit) && i < |ticks| && !ticks[i].cancelled && !ticks[i].read.Fatal?
    requires !(ticks[i].read.Read? && limit.Some? && n + 1 >= limit.value)
    ensures Running(ticks, i + 1, if ticks[i].read.Read? then n + 1 else n, limit)
  {
    var t := ticks[i];
    assert ticks[..i + 1] == ticks[..i] + [t];
    CapturesSnoc(ticks[..i], t);
  }

  /**
   A session stops as `StoppedAt` says. In particular a limit of `Some(0)` stops
   it after one stored frame, as `Some(1)` does, since the limit is checked only
   once a frame has been stored.
   */
  lemma SessionStops(ticks: seq<Tick>, limit: Option<nat>)
    ensures StoppedAt(ticks, limit, Session(ticks, limit).0, Session(ticks, limit).1)
  {
    assert ticks[..0] == [];
    SessionFromStops(ticks, 0, 0, limit);
  }

  /** A limit of zero and a limit of one stop a session at the same pass. */
  lemma ZeroLimitIsOne(ticks: seq<Tick>)
    ensures Session(ticks, Some(0)) == Session(ticks, Some(1))
  {
    ZeroLimitIsOneFrom(ticks, 0, 0);
  }

  lemma {:induction false} ZeroLimitIsOneFrom(ticks: seq<Tick>, i: nat, n: nat)
    requires i <= |ticks|
    ensures SessionFrom(ticks, i, n, Some(0)) == SessionFrom(ticks, i, n, Some(1))
    decreases |ticks| - i
  {
    if i < |ticks| {
      var t := ticks[i];
      if !t.cancelled && !t.read.Fatal? && !t.read.Read? {
        ZeroLimitIsOneFrom(ticks, i + 1, n);
      }
    }
  }

  /** Without a limit, a session stores a frame for every read before the flag or a fatal error. */
  lemma SessionExample()
    ensures
      var f, g := Frame(0x18FE_F100, [1, 2]), Frame(0x18FE_F200, []);
      var ticks := [Tick(false, Retry, 5), Tick(false, Read(f), 7), Tick(false, Read(g), 9), Tick(true, Retry, 11)];
      && Session(ticks, None) == (Cancelled, 3)
      && Session(ticks, Some(0)) == (LimitReached, 2)
      && Captures(ticks[..3]) == [Capture(7, f), Capture(9, g)]
  {
    var f, g := Frame(0x18FE_F100, [1, 2]), Frame(0x18FE_F200, []);
    var ticks := [Tick(false, Retry, 5), Tick(false, Read(f), 7), Tick(false, Read(g), 9), Tick(true, Retry, 11)];
    assert SessionFrom(ticks, 3, 2, None) == (Cancelled, 3);
    assert SessionFrom(ticks, 1, 0, None) == SessionFrom(ticks, 2, 1, None) == SessionFrom(ticks, 3, 2, None);
    assert SessionFrom(ticks, 1, 0, Some(0)) == (LimitReached, 2);
    assert ticks[..1][..0] == [];
    assert Captures(ticks[..1]) == [];
    assert ticks[..2][..1] == ticks[..1];
    assert Captures(ticks[..2]) == [Capture(7, f)];
    assert ticks[..3][..2] == ticks[..2];
  }

  /** With fresh keys, every capture adds one journal entry. */
  lemma {:induction false} PutAllSize(journal0: Journal, cs: seq<Capture>)
    requires FreshCaptures(journal0, cs)
    ensures |PutAll(journal0, cs)| == |journal0| + |cs|
  {
    if cs != [] {
      var init, c := cs[..|cs| - 1], cs[|cs| - 1];
      FreshSnoc(journal0, cs);
      PutAllSize(journal0, init);
    }
  }

  /** With fresh keys, storing and mirroring every capture keeps the mirror. */
  lemma {:induction false} PutAllMirror(journal0: Journal, trees0: Trees, cs: seq<Capture>)
    requires Mirror(journal0, trees0) && FreshCaptures(journal0, cs)
    ensures Mirror(PutAll(journal0, cs), IndexAll(trees0, cs))
  {
    if cs != [] {
      var init, c := cs[..|cs| - 1], cs[|cs| - 1];
      FreshSnoc(journal0, cs);
      PutAllMirror(journal0, trees0, init);
      MirrorInsert(PutAll(journal0, init), IndexAll(trees0, init), KeyOf(c), ValueOf(c));
    }
  }

  /** One pass of the loop, as RecordStep describes it, extends the stored captures by its tick's frame. */
  lemma StateAdvance(journal0: Journal, trees0: Trees, before: seq<Tick>, t: Tick,
                     journal: Journal, trees: Trees, recorded: nat,
                     journal': Journal, trees': Trees, recorded': nat)
    requires journal == PutAll(journal0, Captures(before)) && trees == IndexAll(trees0, Captures(before))
    requires recorded == |Captures(before)|
    requires !t.read.Read? ==> journal' == journal && trees' == trees && recorded' == recorded
    requires t.read.Read? ==>
      var c := Capture(t.now, t.read.frame);
      && journal' == journal[KeyOf(c) := ValueOf(c)]
      && trees' == IndexInsert(trees, PgnFromDbc(t.read.frame.id), KeyOf(c), ValueOf(c))
      && recorded' == recorded + 1
    ensures journal' == PutAll(journal0, Captures(before + [t]))
    ensures trees' == IndexAll(trees0, Captures(before + [t]))
    ensures recorded' == |Captures(before + [t])|
  {
    CapturesSnoc(before, t);
    if t.read.Read? {
      var cs, c := Captures(before), Capture(t.now, t.read.frame);
      PutAllSnoc(journal0, cs, c);
      IndexAllSnoc(trees0, cs, c);
    } else {
      assert Captures(before + [t]) == Captures(before);
    }
  }

  lemma PutAllSnoc(journal0: Journal, cs: seq<Capture>, c: Capture)
    ensures PutAll(journal0, cs + [c]) == PutAll(journal0, cs)[KeyOf(c) := ValueOf(c)]
  {
    var all := cs + [c];
    assert all[..|all| - 1] == cs && all[|all| - 1] == c;
  }

  lemma IndexAllSnoc(trees0: Trees, cs: seq<Capture>, c: Capture)
    ensures IndexAll(trees0, cs + [c]) == IndexInsert(IndexAll(trees0, cs), PgnFromDbc(c.frame.id), KeyOf(c), ValueOf(c))
  {
    var all := cs + [c];
    assert all[..|all| - 1] == cs && all[|all| - 1] == c;
  }

  /** Reading one more tick appends its frame, if any, to the captures. */
  lemma CapturesSnoc(before: seq<Tick>, t: Tick)
    ensures Captures(before + [t]) == Captures(before) + (if t.read.Read? then [Capture(t.now, t.read.frame)] else [])
  {
    assert (before + [t])[..|before|] == before;
  }

  /** Freshness of a longer capture list gives freshness of its prefix and of the new key. */
  lemma FreshSnoc(journal0: Journal, cs: seq<Capture>)
    requires cs != [] && FreshCaptures(journal0, cs)
    ensures FreshCaptures(journal0, cs[..|cs| - 1])
    ensures KeyOf(cs[|cs| - 1]) !in PutAll(journal0, cs[..|cs| - 1])
  {
    var init, c := cs[..|cs| - 1], cs[|cs| - 1];
    assert forall i :: 0 <= i < |init| ==> init[i] == cs[i];
    forall i | 0 <= i < |init| ensures KeyOf(init[i]) != KeyOf(c) {
      KeyCollision(init[i].now, c.now);
    }
  }

}
