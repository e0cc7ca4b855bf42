/**
 The embedded ordered key-value store as the program uses it: a default namespace
 (the journal) mapping capture keys to stored values, and one namespace per PGN
 seen while recording (named by the PGN's 4-byte big-endian form, here keyed by
 the PGN itself) holding the journal entries of that PGN. Inserting an existing
 key overwrites it; iteration visits keys in byte-lexicographic order.
 */
module Store {
  import opened BigEndian
  import opened Pgn
  import opened Codec

  type Journal = map<Key, Value>
  type Trees = map<u32, map<Key, Value>>

  /* ---------------- Ascending iteration ---------------- */

  ghost predicate Ascending(ks: seq<Key>)
  {
    forall i, j :: 0 <= i < j < |ks| ==> LexLess(ks[i], ks[j])
  }

  /** k is in s and sorts before every other key of s. */
  ghost predicate IsLeast(k: Key, s: set<Key>)
  {
    k in s && forall k' :: k' in s && k' != k ==> LexLess(k, k')
  }

  /** Every non-empty finite set of keys has a least key. */
  lemma {:induction false} LeastKeyExists(s: set<Key>)
    requires s != {}
    ensures exists k :: IsLeast(k, s)
  {
    var x: Key :| x in s;
    if s == {x} {
      assert IsLeast(x, s);
    } else {
      LeastKeyExists(s - {x});
      var m: Key :| IsLeast(m, s - {x});
      LexLessTotal(x, m);
      if LexLess(x, m) {
        forall k' | k' in s && k' != x ensures LexLess(x, k') {
          if k' != m { LexLessTransitive(x, m, k'); }
        }
        assert IsLeast(x, s);
      } else {
        assert IsLeast(m, s);
      }
    }
  }

  /** The keys of m in the order the store's iterator visits them. */
  ghost function AscendingKeys<V>(m: map<Key, V>): (ks: seq<Key>)
    ensures |ks| == |m|
    ensures forall k :: k in ks <==> k in m
    ensures Ascending(ks)
    decreases |m|
  {
    if m == map[] then []
    else
      LeastKeyExists(m.Keys);
      var k: Key :| IsLeast(k, m.Keys);
      var rest := m - {k};
      assert rest.Keys == m.Keys - {k};
      var ks := AscendingKeys(rest);
      AscendingCons(k, ks);
      [k] + ks
  }

  lemma AscendingCons(k: Key, ks: seq<Key>)
    requires Ascending(ks)
    requires forall k' :: k' in ks ==> k' != k && LexLess(k, k')
    ensures Ascending([k] + ks)
  {
    var ks' := [k] + ks;
    forall i, j | 0 <= i < j < |ks'| ensures LexLess(ks'[i], ks'[j]) {
      if i == 0 {
        assert ks'[j] == ks[j - 1];
      } else {
        assert ks'[i] == ks[i - 1] && ks'[j] == ks[j - 1];
      }
    }
  }

  /** A key in the tail of an ascending sequence is not its head. */
  lemma InTail(ks: seq<Key>, k: Key)
    requires Ascending(ks) && ks != [] && k in ks[1..]
    ensures k in ks && k != ks[0]
  {
    var i :| 0 <= i < |ks[1..]| && ks[1..][i] == k;
    assert LexLess(ks[0], ks[i + 1]);
    LexLessTotal(k, k);
  }

  lemma SameKeysSameEmptiness(xs: seq<Key>, ys: seq<Key>)
    requires forall k :: k in xs <==> k in ys
    ensures xs == [] <==> ys == []
  {
    if xs != [] { assert xs[0] in ys; }
    if ys != [] { assert ys[0] in xs; }
  }

  /** Two ascending key sequences with the same keys are the same sequence. */
  lemma {:induction false} AscendingUnique(xs: seq<Key>, ys: seq<Key>)
    requires Ascending(xs) && Ascending(ys)
    requires forall k :: k in xs <==> k in ys
    ensures xs == ys
  {
    SameKeysSameEmptiness(xs, ys);
    if xs != [] {
      var x, y := xs[0], ys[0];
      if x != y {
        assert x in ys && y in xs;
        var i :| 0 <= i < |ys| && ys[i] == x;
        var j :| 0 <= j < |xs| && xs[j] == y;
        assert LexLess(y, x) && LexLess(x, y);
        LexLessTotal(x, y);
      }
      forall k: Key ensures k in xs[1..] <==> k in ys[1..] {
        if k in xs[1..] {
          InTail(xs, k);
          var j :| 0 <= j < |ys| && ys[j] == k;
          assert ys[1..][j - 1] == k;
        }
        if k in ys[1..] {
          InTail(ys, k);
          var j :| 0 <= j < |xs| && xs[j] == k;
          assert xs[1..][j - 1] == k;
        }
      }
      AscendingUnique(xs[1..], ys[1..]);
      assert xs == [x] + xs[1..] && ys == [y] + ys[1..];
    }
  }

  /** The journal's entries in iteration order: what `db.iter()` yields. */
  ghost function Entries<V>(m: map<Key, V>): (es: seq<(Key, V)>)
    ensures |es| == |m|
    ensures forall i :: 0 <= i < |es| ==> es[i].0 == AscendingKeys(m)[i] && es[i].0 in m && es[i].1 == m[es[i].0]
  {
    var ks := AscendingKeys(m);
    seq(|ks|, i requires 0 <= i < |ks| => (ks[i], m[ks[i]]))
  }

  /* ---------------- The per-PGN mirror ---------------- */

  /** Every stored value holds at least an id (all the recorder ever writes does). */
  ghost predicate WellFormed(journal: Journal)
  {
    forall k :: k in journal ==> Decodable(journal[k])
  }

  /** The journal entries whose frame has PGN p: what p's namespace should hold. */
  ghost function JournalFor(journal: Journal, p: u32): (sub: map<Key, Value>)
    ensures forall k :: k in sub <==> k in journal && Decodable(journal[k]) && ValuePgn(journal[k]) == p
    ensures forall k :: k in sub ==> sub[k] == journal[k]
  {
    map k | k in journal && Decodable(journal[k]) && ValuePgn(journal[k]) == p :: journal[k]
  }

  /**
   Each PGN namespace is an exact mirror of the journal restricted to that PGN,
   and every journal entry's PGN has a namespace.
   */
  ghost predicate Mirror(journal: Journal, trees: Trees)
  {
    && WellFormed(journal)
    && (forall p :: p in trees ==> trees[p] == JournalFor(journal, p))
    && (forall k :: k in journal ==> ValuePgn(journal[k]) in trees)
  }

  /** The mirror, entry by entry: tree p maps k to v exactly when the journal does and v has PGN p. */
  lemma MirrorEntrywise(journal: Journal, trees: Trees, p: u32, k: Key, v: Value)
    requires Mirror(journal, trees)
    ensures (p in trees && k in trees[p] && trees[p][k] == v) <==>
            (k in journal && journal[k] == v && ValuePgn(v) == p)
  {
  }

  /** The namespace for p as `open_tree` yields it: the existing one, or a new empty one. */
  function TreeOf(trees: Trees, p: u32): (t: map<Key, Value>)
    ensures p in trees ==> t == trees[p]
    ensures p !in trees ==> t == map[]
  {
    if p in trees then trees[p] else map[]
  }

  /** Opening p's namespace and inserting k -> v into it (`open_tree(p)` then `tree.insert(k, v)`). */
  function IndexInsert(trees: Trees, p: u32, k: Key, v: Value): (trees': Trees)
    ensures trees'.Keys == trees.Keys + {p}
    ensures trees'[p] == TreeOf(trees, p)[k := v]
    ensures forall q :: q in trees && q != p ==> trees'[q] == trees[q]
  {
    trees[p := TreeOf(trees, p)[k := v]]
  }

  /** Opening a PGN's namespace and then inserting into it is the one-step insertion. */
  lemma InsertAfterOpen(trees: Trees, withTree: Trees, p: u32, k: Key, v: Value)
    requires withTree == trees[p := TreeOf(trees, p)]
    ensures withTree[p := TreeOf(withTree, p)[k := v]] == IndexInsert(trees, p, k, v)
  {
  }

  /**
   Storing a value under a key that is new, or that held a frame of the same PGN,
   in both the journal and the value's PGN namespace keeps the mirror.
   */
  lemma MirrorInsert(journal: Journal, trees: Trees, k: Key, v: Value)
    requires Mirror(journal, trees) && Decodable(v)
    requires k !in journal || ValuePgn(journal[k]) == ValuePgn(v)
    ensures Mirror(journal[k := v], IndexInsert(trees, ValuePgn(v), k, v))
  {
    var journal', trees' := journal[k := v], IndexInsert(trees, ValuePgn(v), k, v);
    forall q | q in trees' ensures trees'[q] == JournalFor(journal', q) {
      MirrorInsertTree(journal, trees, k, v, q);
    }
    MirrorInsertCovers(journal, trees, k, v, journal', trees');
  }

  /** The entry-by-entry part of MirrorInsert: every stored value holds an id and its PGN has a namespace. */
  lemma MirrorInsertCovers(journal: Journal, trees: Trees, k: Key, v: Value, journal': Journal, trees': Trees)
    requires WellFormed(journal) && Decodable(v)
    requires forall k' :: k' in journal ==> ValuePgn(journal[k']) in trees
    requires journal' == journal[k := v] && trees' == IndexInsert(trees, ValuePgn(v), k, v)
    ensures WellFormed(journal')
    ensures forall k' :: k' in journal' ==> ValuePgn(journal'[k']) in trees'
  {
  }

  /** The namespace-by-namespace part of MirrorInsert. */
  lemma MirrorInsertTree(journal: Journal, trees: Trees, k: Key, v: Value, q: u32)
    requires Mirror(journal, trees) && Decodable(v)
    requires k !in journal || ValuePgn(journal[k]) == ValuePgn(v)
    requires q in IndexInsert(trees, ValuePgn(v), k, v)
    ensures IndexInsert(trees, ValuePgn(v), k, v)[q] == JournalFor(journal[k := v], q)
  {
    var p := ValuePgn(v);
    if q == p {
      if p !in trees {
        JournalForUnindexed(journal, trees, p);
      }
      JournalForInsertSame(journal, k, v);
    } else {
      JournalForInsertOther(journal, k, v, q);
    }
  }

  /** Under the mirror, a PGN without a namespace has no journal entries. */
  lemma JournalForUnindexed(journal: Journal, trees: Trees, p: u32)
    requires Mirror(journal, trees) && p !in trees
    ensures JournalFor(journal, p) == map[]
  {
    forall k | k in journal ensures ValuePgn(journal[k]) != p { }
  }

  lemma JournalForInsertSame(journal: Journal, k: Key, v: Value)
    requires Decodable(v)
    ensures JournalFor(journal[k := v], ValuePgn(v)) == JournalFor(journal, ValuePgn(v))[k := v]
  {
  }

  lemma JournalForInsertOther(journal: Journal, k: Key, v: Value, q: u32)
    requires Decodable(v) && q != ValuePgn(v)
    requires k !in journal || (Decodable(journal[k]) && ValuePgn(journal[k]) == ValuePgn(v))
    ensures JournalFor(journal[k := v], q) == JournalFor(journal, q)
  {
  }

  /**
   A key reused by a frame of another PGN (two frames in the same microsecond, or a
   clock set back) overwrites the journal entry but leaves the old entry in the
   first frame's namespace: the namespaces then hold a frame the journal no longer has.
   */
  lemma CollisionBreaksMirror()
    ensures var k := EncodeKey(1000);
            var v1, v2 := EncodeValue(0x18FE_F100, [1]), EncodeValue(0x18FE_F200, [2]);
            var journal := map[k := v1];
            var trees := IndexInsert(map[], ValuePgn(v1), k, v1);
            Mirror(journal, trees) &&
            !Mirror(journal[k := v2], IndexInsert(trees, ValuePgn(v2), k, v2))
  {
    var k := EncodeKey(1000);
    var v1, v2 := EncodeValue(0x18FE_F100, [1]), EncodeValue(0x18FE_F200, [2]);
    DecodeEncodeValue(0x18FE_F100, [1]);
    DecodeEncodeValue(0x18FE_F200, [2]);
    assert ValuePgn(v1) == 0xFEF1 && ValuePgn(v2) == 0xFEF2;
    var journal := map[k := v1];
    var trees := IndexInsert(map[], 0xFEF1, k, v1);
    assert trees[0xFEF1] == JournalFor(journal, 0xFEF1);
    var trees' := IndexInsert(trees, 0xFEF2, k, v2);
    assert k in trees'[0xFEF1] && k !in JournalFor(journal[k := v2], 0xFEF1);
  }

  /* ---------------- Counting ---------------- */

  /** The journal entries whose PGN is in ps. */
  ghost function JournalIn(journal: Journal, ps: set<u32>): (sub: map<Key, Value>)
    ensures forall k :: k in sub <==> k in journal && Decodable(journal[k]) && ValuePgn(journal[k]) in ps
  {
    map k | k in journal && Decodable(journal[k]) && ValuePgn(journal[k]) in ps :: journal[k]
  }

  /** The sum of the sizes of the namespaces listed in ps. */
  function SumSizes(trees: Trees, ps: seq<u32>): nat
  {
    if ps == [] then 0 else |TreeOf(trees, ps[0])| + SumSizes(trees, ps[1..])
  }

  lemma {:induction false} SumSizesIsJournalIn(journal: Journal, trees: Trees, ps: seq<u32>)
    requires Mirror(journal, trees)
    requires forall i, j :: 0 <= i < j < |ps| ==> ps[i] != ps[j]
    requires forall i :: 0 <= i < |ps| ==> ps[i] in trees
    ensures SumSizes(trees, ps) == |JournalIn(journal, Elems(ps))|
  {
    if ps == [] {
      assert JournalIn(journal, {}) == map[];
    } else {
      var p, rest := ps[0], ps[1..];
      assert forall i, j :: 0 <= i < j < |rest| ==> rest[i] != rest[j] by {
        forall i, j | 0 <= i < j < |rest| ensures rest[i] != rest[j] {
          assert rest[i] == ps[i + 1] && rest[j] == ps[j + 1];
        }
      }
      SumSizesIsJournalIn(journal, trees, rest);
      assert p !in Elems(rest);
      JournalInAdd(journal, Elems(rest), p);
      assert Elems(ps) == Elems(rest) + {p};
      calc {
        SumSizes(trees, ps);
        |TreeOf(trees, p)| + SumSizes(trees, rest);
        { assert TreeOf(trees, p) == JournalFor(journal, p); }
        |JournalFor(journal, p)| + |JournalIn(journal, Elems(rest))|;
        |JournalIn(journal, Elems(rest) + {p})|;
      }
    }
  }

  /** The PGNs listed in ps. */
  function Elems(ps: seq<u32>): (s: set<u32>)
    ensures forall p :: p in s <==> p in ps
  {
    if ps == [] then {} else {ps[0]} + Elems(ps[1..])
  }

  /** Adding a PGN to the set adds exactly that PGN's entries. */
  lemma JournalInAdd(journal: Journal, s: set<u32>, p: u32)
    requires p !in s
    ensures |JournalIn(journal, s + {p})| == |JournalFor(journal, p)| + |JournalIn(journal, s)|
  {
    var mine, others, all := JournalFor(journal, p), JournalIn(journal, s), JournalIn(journal, s + {p});
    forall k | k in mine.Keys ensures k !in others.Keys { }
    forall k ensures k in all.Keys <==> k in mine.Keys + others.Keys { }
    assert all.Keys == mine.Keys + others.Keys;
    assert |mine.Keys + others.Keys| == |mine.Keys| + |others.Keys|;
  }

  /**
   Under the mirror, the namespace sizes over all PGN namespaces add up to the
   journal's size: every journal entry is counted in exactly one namespace.
   */
  lemma CountsPartitionJournal(journal: Journal, trees: Trees, ps: seq<u32>)
    requires Mirror(journal, trees)
    requires forall i, j :: 0 <= i < j < |ps| ==> ps[i] != ps[j]
    requires forall p :: p in trees <==> p in ps
    ensures SumSizes(trees, ps) == |journal|
  {
    SumSizesIsJournalIn(journal, trees, ps);
    var all := JournalIn(journal, Elems(ps));
    assert all.Keys == journal.Keys by {
      forall k | k in journal ensures k in all {
        assert ValuePgn(journal[k]) in trees;
      }
    }
  }
}
