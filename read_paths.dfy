/**
 The three read paths over a recorded store: playback writes the stored frames
 back to the bus in key order, dump describes each stored frame from a signal
 dictionary, and count reports the size of the journal or of one PGN namespace.
 Each walks `db.iter()`, modelled as the entries of the journal in ascending key
 order; the bus writes and console lines become output sequences.
 */
module ReadPaths {
  import opened BigEndian
  import opened Pgn
  import opened Codec
  import opened Store
  import opened Options
  import opened Recorder

  /** One item of `db.iter()`: a key and the value stored under it. */
  type Entry = (Key, Value)

  /* ---------------- Playback ---------------- */

  /**
   What a playback writes: the frames sent to the bus, in order, and the key of the
   entry whose value was too short to split at byte 4, where the program panics.
   */
  datatype Replay = Replay(frames: seq<Frame>, panicAt: Option<Key>)

  /** Playback over the entries in iteration order: decode each value and send it, stopping at the first short one. */
  function Playback(es: seq<Entry>): (r: Replay)
    ensures |r.frames| <= |es|
  {
    if es == [] then Replay([], None)
    else
      var r := Playback(es[..|es| - 1]);
      var e := es[|es| - 1];
      if r.panicAt.Some? then r
      else if !Decodable(e.1) then Replay(r.frames, Some(e.0))
      else Replay(r.frames + [DecodeValue(e.1)], None)
  }

  /** The frames stored in the given entries, one per entry, in order. */
  function Decoded(es: seq<Entry>): (fs: seq<Frame>)
    requires forall i :: 0 <= i < |es| ==> Decodable(es[i].1)
    ensures |fs| == |es|
  {
    seq(|es|, i requires 0 <= i < |es| => DecodeValue(es[i].1))
  }

  /** When every value holds an id, playback sends one decoded frame per entry, in order, and never panics. */
  lemma {:induction false} PlaybackAllDecodable(es: seq<Entry>)
    requires forall i :: 0 <= i < |es| ==> Decodable(es[i].1)
    ensures Playback(es) == Replay(Decoded(es), None)
  {
    if es != [] {
      var init := es[..|es| - 1];
      PlaybackAllDecodable(init);
      assert Decoded(es) == Decoded(init) + [DecodeValue(es[|es| - 1].1)];
    }
  }

  /**
   Playback sends the frames of the entries before the first short value, then
   panics on that entry; nothing after it is sent.
   */
  lemma {:induction false} PlaybackStopsAtShortValue(es: seq<Entry>, i: nat)
    requires i < |es| && !Decodable(es[i].1)
    requires forall j :: 0 <= j < i ==> Decodable(es[j].1)
    ensures Playback(es) == Replay(Decoded(es[..i]), Some(es[i].0))
    decreases |es|
  {
    if i == |es| - 1 {
      PlaybackAllDecodable(es[..i]);
    } else {
      var init := es[..|es| - 1];
      assert init[..i] == es[..i] && init[i] == es[i];
      PlaybackStopsAtShortValue(init, i);
    }
  }

  /** The frames of the captures, in order. */
  function Frames(cs: seq<Capture>): (fs: seq<Frame>)
    ensures |fs| == |cs| && forall i :: 0 <= i < |cs| ==> fs[i] == cs[i].frame
  {
    seq(|cs|, i requires 0 <= i < |cs| => cs[i].frame)
  }

  /** The captures as stored: each one's key and value, in capture order. */
  function Stored(cs: seq<Capture>): (es: seq<Entry>)
    ensures |es| == |cs| && forall i :: 0 <= i < |cs| ==> es[i] == (KeyOf(cs[i]), ValueOf(cs[i]))
  {
    seq(|cs|, i requires 0 <= i < |cs| => (KeyOf(cs[i]), ValueOf(cs[i])))
  }

  /** Stored frames are written back as they were captured: the value of a capture decodes to its frame. */
  lemma PlaybackOfCaptures(cs: seq<Capture>)
    ensures Playback(Stored(cs)) == Replay(Frames(cs), None)
  {
    PlaybackAllDecodable(Stored(cs));
    assert Decoded(Stored(cs)) == Frames(cs);
  }

  /** Storing captures with distinct times leaves each under its own key with its own value. */
  lemma {:induction false} PutAllLookup(journal0: Journal, cs: seq<Capture>, i: nat)
    requires FreshCaptures(journal0, cs) && i < |cs|
    ensures KeyOf(cs[i]) in PutAll(journal0, cs) && PutAll(journal0, cs)[KeyOf(cs[i])] == ValueOf(cs[i])
  {
    var init, c := cs[..|cs| - 1], cs[|cs| - 1];
    if i < |cs| - 1 {
      assert init[i] == cs[i];
      FreshSnoc(journal0, cs);
      PutAllLookup(journal0, init, i);
      KeyCollision(cs[i].now, c.now);
    }
  }

  /** The keys of the captures, in capture order. */
  function CaptureKeys(cs: seq<Capture>): (ks: seq<Key>)
    ensures |ks| == |cs| && forall i :: 0 <= i < |cs| ==> ks[i] == KeyOf(cs[i])
  {
    seq(|cs|, i requires 0 <= i < |cs| => KeyOf(cs[i]))
  }

  lemma CaptureKeysInKeyOrder(cs: seq<Capture>)
    requires InTimeOrder(cs)
    ensures Ascending(CaptureKeys(cs))
  {
    var ks := CaptureKeys(cs);
    forall i, j | 0 <= i < j < |ks| ensures LexLess(ks[i], ks[j]) {
      KeyOrderIsTimeOrder(cs[i].now, cs[j].now);
    }
  }

  lemma CaptureKeysStored(cs: seq<Capture>)
    ensures forall k :: k in CaptureKeys(cs) <==> k in PutAll(map[], cs)
  {
    var ks := CaptureKeys(cs);
    forall k | k in ks ensures k in KeysOf(cs) {
      var i :| 0 <= i < |ks| && ks[i] == k;
    }
    forall k | k in KeysOf(cs) ensures k in ks {
      var i :| 0 <= i < |cs| && KeyOf(cs[i]) == k;
      assert ks[i] == k;
    }
  }

  /** Captures taken at strictly increasing times are iterated in capture order. */
  lemma CaptureKeysAscend(cs: seq<Capture>)
    requires InTimeOrder(cs)
    ensures AscendingKeys(PutAll(map[], cs)) == CaptureKeys(cs)
  {
    CaptureKeysInKeyOrder(cs);
    CaptureKeysStored(cs);
    AscendingUnique(CaptureKeys(cs), AscendingKeys(PutAll(map[], cs)));
  }

  /**
   Recording captures at strictly increasing times into an empty journal and
   playing the journal back sends exactly the captured frames, in capture order.
   */
  lemma PlaybackAfterRecording(cs: seq<Capture>)
    requires InTimeOrder(cs)
    ensures Playback(Entries(PutAll(map[], cs))) == Replay(Frames(cs), None)
  {
    JournalOfCaptures(cs);
    PlaybackOfCaptures(cs);
  }

  /** The journal of captures taken at increasing times iterates as the captures were stored. */
  lemma JournalOfCaptures(cs: seq<Capture>)
    requires InTimeOrder(cs)
    ensures Entries(PutAll(map[], cs)) == Stored(cs)
  {
    var journal := PutAll(map[], cs);
    CaptureKeysAscend(cs);
    var es, stored := Entries(journal), Stored(cs);
    TimeOrderIsFresh(cs);
    forall i | 0 <= i < |cs| ensures es[i] == stored[i] {
      assert es[i].0 == CaptureKeys(cs)[i] == KeyOf(cs[i]);
      PutAllLookup(map[], cs, i);
    }
  }


  /* ---------------- Dump ---------------- */

  /** The signal dictionary loaded from a DBC file: PGN to description. */
  type Library = map<u32, string>

  /** What dump does with one stored frame. */
  datatype Verdict = Describe(description: string) | Warn | Silent

  /**
   The per-frame decision as the program writes it: a PGN in the dictionary is
   described; an unknown one is reported unless `is_proprietary_pgn` holds for it;
   otherwise nothing is written.
   */
  function Classify(lib: Library, pgn: u32): (d: Verdict)
    ensures d.Describe? <==> pgn in lib
    ensures d.Describe? ==> d.description == lib[pgn]
    ensures d == Warn <==> pgn !in lib && ReservedBandHigh < pgn
    ensures d == Silent <==> pgn !in lib && pgn <= ReservedBandHigh
  {
    if pgn in lib then Describe(lib[pgn])
    else if !IsProprietaryPgn(pgn) then Warn
    else Silent
  }

  /** The decision the comment on `is_proprietary_pgn` describes: only the reserved band is kept quiet. */
  function ClassifyIntended(lib: Library, pgn: u32): (d: Verdict)
    ensures d.Describe? <==> pgn in lib
    ensures d.Describe? ==> d.description == lib[pgn]
    ensures d == Silent <==> pgn !in lib && ReservedBandLow <= pgn <= ReservedBandHigh
  {
    if pgn in lib then Describe(lib[pgn])
    else if !IsReservedBandPgn(pgn) then Warn
    else Silent
  }

  /**
   The two decisions differ exactly on unknown PGNs below the reserved band: the
   program keeps them quiet where the described intent reports them.
   */
  lemma ClassifyDiffersBelowBand(lib: Library, pgn: u32)
    ensures Classify(lib, pgn) != ClassifyIntended(lib, pgn) <==> pgn !in lib && pgn < ReservedBandLow
    ensures Classify(lib, pgn) != ClassifyIntended(lib, pgn) ==>
      Classify(lib, pgn) == Silent && ClassifyIntended(lib, pgn) == Warn
  {
  }

  /** A line dump writes: `time description` on standard output, or `Unknown: pgn` on standard error. */
  datatype Line = Described(time: u128, description: string) | Unknown(pgn: u32)

  /** What a dump writes: its lines in order, and the key of the entry whose value was too short, where it panics. */
  datatype Listing = Listing(lines: seq<Line>, panicAt: Option<Key>)

  /**
   The lines written for one entry whose value holds an id: the capture time and
   the description for a PGN in the dictionary, a warning for an unknown PGN above
   the reserved band, and nothing otherwise.
   */
  function LinesOf(lib: Library, e: Entry): (ls: seq<Line>)
    requires Decodable(e.1)
    ensures |ls| <= 1
    ensures ls == [] <==> Classify(lib, ValuePgn(e.1)) == Silent
    ensures ValuePgn(e.1) in lib ==> ls == [Described(DecodeKey(e.0), lib[ValuePgn(e.1)])]
    ensures ValuePgn(e.1) !in lib && ReservedBandHigh < ValuePgn(e.1) ==> ls == [Unknown(ValuePgn(e.1))]
    ensures ValuePgn(e.1) !in lib && ValuePgn(e.1) <= ReservedBandHigh ==> ls == []
  {
    var pgn := ValuePgn(e.1);
    match Classify(lib, pgn)
    case Describe(description) => [Described(DecodeKey(e.0), description)]
    case Warn => [Unknown(pgn)]
    case Silent => []
  }

  /** Dump over the entries in iteration order, stopping at the first short value. */
  function Dump(lib: Library, es: seq<Entry>): (r: Listing)
    ensures |r.lines| <= |es|
  {
    if es == [] then Listing([], None)
    else
      var r := Dump(lib, es[..|es| - 1]);
      var e := es[|es| - 1];
      if r.panicAt.Some? then r
      else if !Decodable(e.1) then Listing(r.lines, Some(e.0))
      else Listing(r.lines + LinesOf(lib, e), None)
  }

  /** The lines of entries that all hold an id: each entry's lines, in order. */
  function DumpLines(lib: Library, es: seq<Entry>): (ls: seq<Line>)
    requires forall i :: 0 <= i < |es| ==> Decodable(es[i].1)
    ensures |ls| <= |es|
  {
    if es == [] then [] else DumpLines(lib, es[..|es| - 1]) + LinesOf(lib, es[|es| - 1])
  }

  /** When every value holds an id, dump writes each entry's lines, in iteration order, and never panics. */
  lemma {:induction false} DumpAllDecodable(lib: Library, es: seq<Entry>)
    requires forall i :: 0 <= i < |es| ==> Decodable(es[i].1)
    ensures Dump(lib, es) == Listing(DumpLines(lib, es), None)
  {
    if es != [] {
      DumpAllDecodable(lib, es[..|es| - 1]);
    }
  }

  /**
   Dump writes the lines of the entries before the first short value, then panics
   on that entry; nothing after it is written.
   */
  lemma {:induction false} DumpStopsAtShortValue(lib: Library, es: seq<Entry>, i: nat)
    requires i < |es| && !Decodable(es[i].1)
    requires forall j :: 0 <= j < i ==> Decodable(es[j].1)
    ensures Dump(lib, es) == Listing(DumpLines(lib, es[..i]), Some(es[i].0))
    decreases |es|
  {
    if i == |es| - 1 {
      DumpAllDecodable(lib, es[..i]);
    } else {
      var init := es[..|es| - 1];
      assert init[..i] == es[..i] && init[i] == es[i];
      DumpStopsAtShortValue(lib, init, i);
    }
  }

  /** l is the line written for one of the entries, from that entry's own time, PGN and description. */
  ghost predicate LineOf(lib: Library, es: seq<Entry>, l: Line)
  {
    exists j :: 0 <= j < |es| && Decodable(es[j].1) && LinesOf(lib, es[j]) == [l]
  }

  /** Every line a dump writes is the line of one of its entries. */
  lemma {:induction false} DumpLinesSound(lib: Library, es: seq<Entry>)
    ensures forall i :: 0 <= i < |Dump(lib, es).lines| ==> LineOf(lib, es, Dump(lib, es).lines[i])
  {
    if es != [] {
      var init, e := es[..|es| - 1], es[|es| - 1];
      DumpLinesSound(lib, init);
      var r := Dump(lib, init);
      if r.panicAt.None? && Decodable(e.1) {
        var ls, tail := r.lines + LinesOf(lib, e), LinesOf(lib, e);
        forall i | 0 <= i < |ls| ensures LineOf(lib, es, ls[i]) {
          if i < |r.lines| {
            assert ls[i] == r.lines[i] && LineOf(lib, init, r.lines[i]);
            var j :| 0 <= j < |init| && Decodable(init[j].1) && LinesOf(lib, init[j]) == [ls[i]];
            assert es[j] == init[j];
          } else {
            assert ls[i] == tail[0] && tail == [ls[i]];
            assert es[|es| - 1] == e;
          }
        }
      } else {
        forall i | 0 <= i < |Dump(lib, es).lines| ensures LineOf(lib, es, Dump(lib, es).lines[i]) {
          var j :| 0 <= j < |init| && Decodable(init[j].1) && LinesOf(lib, init[j]) == [r.lines[i]];
          assert es[j] == init[j];
        }
      }
    }
  }

  /** Keys in strictly ascending byte order, as iteration yields them. */
  ghost predicate KeysAscend(es: seq<Entry>)
  {
    forall i, j :: 0 <= i < j < |es| ==> LexLess(es[i].0, es[j].0)
  }

  /** A key sorting after another stands for a later time. */
  lemma LaterKeyLaterTime(k1: Key, k2: Key)
    requires LexLess(k1, k2)
    ensures DecodeKey(k1) < DecodeKey(k2)
  {
    KeyOrderIsTimeOrder(DecodeKey(k1), DecodeKey(k2));
  }

  /** Described lines in strictly increasing time order. */
  ghost predicate DescribedInTimeOrder(ls: seq<Line>)
  {
    forall i, j :: 0 <= i < j < |ls| && ls[i].Described? && ls[j].Described? ==> ls[i].time < ls[j].time
  }

  /** Over entries in key order, the described lines come out in strictly increasing time order. */
  lemma {:induction false} DumpTimesAscend(lib: Library, es: seq<Entry>)
    requires KeysAscend(es)
    ensures DescribedInTimeOrder(Dump(lib, es).lines)
  {
    if es != [] {
      var init, e := es[..|es| - 1], es[|es| - 1];
      assert KeysAscend(init) by {
        assert forall i :: 0 <= i < |init| ==> init[i] == es[i];
      }
      DumpTimesAscend(lib, init);
      DumpLinesSound(lib, init);
      var r := Dump(lib, init);
      if r.panicAt.None? && Decodable(e.1) {
        var ls, tail := r.lines + LinesOf(lib, e), LinesOf(lib, e);
        forall i | 0 <= i < |r.lines| && r.lines[i].Described? ensures r.lines[i].time < DecodeKey(e.0) {
          assert LineOf(lib, init, r.lines[i]);
          var j :| 0 <= j < |init| && Decodable(init[j].1) && LinesOf(lib, init[j]) == [r.lines[i]];
          assert es[j] == init[j];
          LaterKeyLaterTime(es[j].0, e.0);
        }
        forall i, j | 0 <= i < j < |ls| && ls[i].Described? && ls[j].Described? ensures ls[i].time < ls[j].time {
          if j < |r.lines| {
            assert ls[i] == r.lines[i] && ls[j] == r.lines[j];
          } else {
            assert ls[i] == r.lines[i] && ls[j] == tail[j - |r.lines|];
          }
        }
      }
    }
  }

  /** Dumping a journal lists its described frames in capture-time order. */
  lemma DumpJournalInTimeOrder(lib: Library, journal: Journal)
    ensures DescribedInTimeOrder(Dump(lib, Entries(journal)).lines)
  {
    var es := Entries(journal);
    assert KeysAscend(es) by {
      forall i, j | 0 <= i < j < |es| ensures LexLess(es[i].0, es[j].0) {
        assert es[i].0 == AscendingKeys(journal)[i] && es[j].0 == AscendingKeys(journal)[j];
      }
    }
    DumpTimesAscend(lib, es);
  }

  /**
   With a dictionary describing only PGN 0xFEF1 (say as "Engine Temperature"), three frames of PGNs 0xFEF1,
   0xFEF2 and 0x1234: the program describes the first and writes nothing for the
   other two, whereas the described intent would report both unknown PGNs.
   */
  lemma DumpExample(description: string, k1: Key, k2: Key, k3: Key, v1: Value, v2: Value, v3: Value)
    requires Decodable(v1) && DecodeValue(v1).id == 0x18FE_F100
    requires Decodable(v2) && DecodeValue(v2).id == 0x18FE_F200
    requires Decodable(v3) && DecodeValue(v3).id == 0x0012_3400
    ensures
      var lib := map[0xFEF1 := description];
      && Dump(lib, [(k1, v1), (k2, v2), (k3, v3)]) == Listing([Described(DecodeKey(k1), description)], None)
      && ClassifyIntended(lib, 0xFEF2) == Warn && ClassifyIntended(lib, 0x1234) == Warn
  {
    var lib := map[0xFEF1 := description];
    var e1, e2, e3 := (k1, v1), (k2, v2), (k3, v3);
    ExampleLines(lib, description, e1, e2, e3);
    var none: seq<Entry> := [];
    var es1 := none + [e1];
    var es2 := es1 + [e2];
    DumpSnoc(lib, none, e1);
    DumpSnoc(lib, es1, e2);
    DumpSnoc(lib, es2, e3);
    assert es2 + [e3] == [e1, e2, e3];
  }

  lemma ExampleLines(lib: Library, description: string, e1: Entry, e2: Entry, e3: Entry)
    requires lib == map[0xFEF1 := description]
    requires Decodable(e1.1) && DecodeValue(e1.1).id == 0x18FE_F100
    requires Decodable(e2.1) && DecodeValue(e2.1).id == 0x18FE_F200
    requires Decodable(e3.1) && DecodeValue(e3.1).id == 0x0012_3400
    ensures LinesOf(lib, e1) == [Described(DecodeKey(e1.0), description)]
    ensures LinesOf(lib, e2) == [] && LinesOf(lib, e3) == []
    ensures ClassifyIntended(lib, 0xFEF2) == Warn && ClassifyIntended(lib, 0x1234) == Warn
  {
    PgnExamples();
    assert ValuePgn(e1.1) == 0xFEF1 && ValuePgn(e2.1) == 0xFEF2 && ValuePgn(e3.1) == 0x1234;
  }

  /** Dump over one more entry: the lines of the entry follow, unless dump stopped earlier or stops on it. */
  lemma DumpSnoc(lib: Library, es: seq<Entry>, e: Entry)
    ensures Dump(lib, es + [e]) ==
      var r := Dump(lib, es);
      if r.panicAt.Some? then r
      else if !Decodable(e.1) then Listing(r.lines, Some(e.0))
      else Listing(r.lines + LinesOf(lib, e), None)
  {
    assert (es + [e])[..|es|] == es;
  }

  /* ---------------- Count ---------------- */

  /** `count`: the size of the journal, or of PGN p's namespace, opened (and created empty) if it is new. */
  function Count(journal: Journal, trees: Trees, filter: Option<u32>): (n: nat)
    ensures filter.None? ==> n == |journal|
    ensures filter.Some? && filter.value !in trees ==> n == 0
    ensures filter.Some? && filter.value in trees ==> n == |trees[filter.value]|
  {
    match filter
    case None => |journal|
    case Some(p) => |TreeOf(trees, p)|
  }

  /** Under the mirror, a PGN's count is the number of journal entries of that PGN. */
  lemma CountIsJournalEntriesOfPgn(journal: Journal, trees: Trees, p: u32)
    requires Mirror(journal, trees)
    ensures Count(journal, trees, Some(p)) == |JournalFor(journal, p)|
  {
    if p !in trees {
      JournalForUnindexed(journal, trees, p);
    }
  }

  /** Under the mirror, the counts of all namespaces add up to the unfiltered count. */
  lemma CountsAddUp(journal: Journal, trees: Trees, ps: seq<u32>)
    requires Mirror(journal, trees)
    requires forall i, j :: 0 <= i < j < |ps| ==> ps[i] != ps[j]
    requires forall p :: p in trees <==> p in ps
    ensures SumSizes(trees, ps) == Count(journal, trees, None)
  {
    CountsPartitionJournal(journal, trees, ps);
  }

  /**
   After recording, at increasing times, three frames with PGNs 0xFEF1, 0xFEF2 and
   0xFEF3, the unfiltered count is 3, PGN 0xFEF1's is 1 and a PGN never recorded counts 0.
   */
  lemma CountExample(cs: seq<Capture>)
    requires |cs| == 3 && InTimeOrder(cs)
    requires cs[0].frame.id == 0x18FE_F100 && cs[1].frame.id == 0x18FE_F200 && cs[2].frame.id == 0x18FE_F300
    ensures Count(PutAll(map[], cs), IndexAll(map[], cs), None) == 3
    ensures Count(PutAll(map[], cs), IndexAll(map[], cs), Some(0xFEF1)) == 1
    ensures Count(PutAll(map[], cs), IndexAll(map[], cs), Some(0x1234)) == 0
  {
    TimeOrderIsFresh(cs);
    PutAllSize(map[], cs);
    PgnExamples();
    ExampleTrees(cs);
  }

  lemma ExampleTrees(cs: seq<Capture>)
    requires |cs| == 3
    requires PgnFromDbc(cs[0].frame.id) == 0xFEF1 && PgnFromDbc(cs[1].frame.id) == 0xFEF2
    requires PgnFromDbc(cs[2].frame.id) == 0xFEF3
    ensures 0x1234 !in IndexAll(map[], cs)
    ensures 0xFEF1 in IndexAll(map[], cs) && IndexAll(map[], cs)[0xFEF1] == map[KeyOf(cs[0]) := ValueOf(cs[0])]
  {
    var c0, c1, c2 := cs[0], cs[1], cs[2];
    assert cs[..1][..0] == cs[..0];
    assert cs[..2][..1] == cs[..1];
    assert cs[..3][..2] == cs[..2] && cs[..3] == cs;
    var t1 := IndexAll(map[], cs[..1]);
    assert cs[..1][0] == c0;
    assert t1 == IndexInsert(IndexAll(map[], cs[..0]), 0xFEF1, KeyOf(c0), ValueOf(c0));
    var t2 := IndexAll(map[], cs[..2]);
    assert t2 == IndexInsert(t1, 0xFEF2, KeyOf(c1), ValueOf(c1));
    assert t2.Keys == {0xFEF1, 0xFEF2} && t2[0xFEF1] == t1[0xFEF1];
    assert IndexAll(map[], cs).Keys == {0xFEF1, 0xFEF2, 0xFEF3};
  }
}
