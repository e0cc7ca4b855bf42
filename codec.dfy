/**
 The on-disk form of a captured frame. A record is stored under a 16-byte
 big-endian key (microseconds since the Unix epoch) and its value is the
 4-byte big-endian arbitration id followed by the raw payload, with no
 length prefix.
 */
module Codec {
  import opened BigEndian
  import opened Pgn

  /** Width of the encoded arbitration id (`size_of::<u32>()`). */
  const IdWidth := 4
  /** Width of the encoded capture key (`size_of::<u128>()`). */
  const KeyWidth := 16

  /** A capture key as the store holds it: exactly 16 bytes. */
  type Key = s: seq<u8> | |s| == 16
    witness [0, 0, 0, 0, 0, 0, 0, 0, 0, 0, 0, 0, 0, 0, 0, 0]

  /** A stored value: the encoded id and the payload. */
  type Value = seq<u8>

  /** A frame as read from or written to the bus: arbitration id and payload. */
  datatype Frame = Frame(id: u32, data: seq<u8>)

  /** The key of a frame captured `micros` microseconds after the epoch (`as_micros().to_be_bytes()`). */
  function EncodeKey(micros: u128): (k: Key)
    ensures FromBE(k) == micros
  {
    Pow256Widths();
    FromToBE(micros, KeyWidth);
    ToBE(micros, KeyWidth)
  }

  /** The timestamp a key stands for (`u128::from_be_bytes`). */
  function DecodeKey(k: Key): (micros: u128)
    ensures EncodeKey(micros) == k
  {
    Pow256Widths();
    ToFromBE(k);
    FromBE(k)
  }

  /** Decoding an encoded key gives back the timestamp. */
  lemma DecodeEncodeKey(micros: u128)
    ensures DecodeKey(EncodeKey(micros)) == micros
  {
  }

  /**
   The store's key order is capture-time order: one key sorts before another
   exactly when its timestamp is earlier.
   */
  lemma KeyOrderIsTimeOrder(t1: u128, t2: u128)
    ensures LexLess(EncodeKey(t1), EncodeKey(t2)) <==> t1 < t2
  {
    Pow256Widths();
    ToBEOrder(t1, t2, KeyWidth);
  }

  /** Two keys are the same exactly when their timestamps are: same-microsecond frames share a key. */
  lemma KeyCollision(t1: u128, t2: u128)
    ensures EncodeKey(t1) == EncodeKey(t2) <==> t1 == t2
  {
  }

  /** The stored value of a frame, `[id.to_be_bytes(), data].concat()`. */
  function EncodeValue(id: u32, data: seq<u8>): (v: Value)
    ensures |v| == |data| + IdWidth
    ensures FromBE(v[..IdWidth]) == id && v[IdWidth..] == data
  {
    Pow256Widths();
    FromToBE(id, IdWidth);
    var v := ToBE(id, IdWidth) + data;
    assert v[..IdWidth] == ToBE(id, IdWidth);
    v
  }

  /** A value long enough to split off the id: shorter ones make `split_at(4)` panic. */
  predicate Decodable(v: Value): (r: bool)
    ensures !r ==> forall id: u32, data :: EncodeValue(id, data) != v
  {
    |v| >= IdWidth
  }

  /** Splits a stored value at byte 4 into the id and the payload. */
  function DecodeValue(v: Value): (f: Frame)
    requires Decodable(v)
    ensures EncodeValue(f.id, f.data) == v
  {
    Pow256Widths();
    ToFromBE(v[..IdWidth]);
    Frame(FromBE(v[..IdWidth]), v[IdWidth..])
  }

  /** Decoding a stored frame gives the frame back, for any id and any payload length. */
  lemma DecodeEncodeValue(id: u32, data: seq<u8>)
    ensures Decodable(EncodeValue(id, data))
    ensures DecodeValue(EncodeValue(id, data)) == Frame(id, data)
  {
  }

  /** The PGN of the frame a stored value holds. */
  function ValuePgn(v: Value): (pgn: u32)
    requires Decodable(v)
    ensures pgn < PgnBound
  {
    PgnFromDbc(DecodeValue(v).id)
  }

  /** The stored value of a frame carries the PGN of the frame's id. */
  lemma ValuePgnOfFrame(id: u32, data: seq<u8>)
    ensures Decodable(EncodeValue(id, data)) && ValuePgn(EncodeValue(id, data)) == PgnFromDbc(id)
  {
    DecodeEncodeValue(id, data);
  }
}
