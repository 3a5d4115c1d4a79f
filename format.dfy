/** The checkpoint wire format: what each encode operator appends to the
    stream and what the matching decode operator takes back from it. */
module Format {
  import opened Wire
  import opened Wrappers

  /** The element types the codec operators are declared for. */
  datatype Kind = UInt8 | UInt16 | UInt32 | UInt64 | Boolean | Float32 | Float64 | StdString

  /** A value of one of those types. A float or double is carried as its raw
      bit pattern: the format copies its bytes and never looks at the number. */
  datatype Value =
    | U8(u8Val: byte)
    | U16(u16Val: u16)
    | U32(u32Val: u32)
    | U64(u64Val: u64)
    | Bool(boolVal: bool)
    | Float(floatBits: u32)
    | Double(doubleBits: u64)
    | Str(chars: seq<byte>)

  function KindOf(v: Value): Kind
  {
    match v
    case U8(_) => UInt8
    case U16(_) => UInt16
    case U32(_) => UInt32
    case U64(_) => UInt64
    case Bool(_) => Boolean
    case Float(_) => Float32
    case Double(_) => Float64
    case Str(_) => StdString
  }

  predicate IsScalar(k: Kind) { k != StdString }

  /** sizeof of each fixed-width type. */
  function Width(k: Kind): nat
    requires IsScalar(k)
  {
    match k
    case UInt8 => 1
    case UInt16 => 2
    case UInt32 => 4
    case UInt64 => 8
    case Boolean => 1
    case Float32 => 4
    case Float64 => 8
  }

  /** A size as a 32-bit unsigned variable holds it. */
  function Trunc32(n: nat): (r: u32)
    ensures r <= n
    ensures n < 0x1_0000_0000 ==> r == n
  {
    n % 0x1_0000_0000
  }

  /** A string's length as the 32-bit length prefix holds it. */
  function Length32(cs: seq<byte>): (len: u32)
    ensures len <= |cs|
    ensures |cs| < 0x1_0000_0000 ==> len == |cs|
  {
    Trunc32(|cs|)
  }

  /** A value whose encoding the decoder can take back unchanged: a string
      must be shorter than 2^32 bytes to have its length in the prefix. */
  predicate Fits(v: Value) { v.Str? ==> |v.chars| < 0x1_0000_0000 }

  /** The bit pattern held in a scalar's memory, read as an unsigned number. */
  function Bits(v: Value): (n: nat)
    requires IsScalar(KindOf(v))
    ensures n < Pow256(Width(KindOf(v)))
  {
    PowWidths();
    match v
    case U8(b) => b
    case U16(x) => x
    case U32(x) => x
    case U64(x) => x
    case Bool(f) => if f then 1 else 0
    case Float(x) => x
    case Double(x) => x
  }

  /** The scalar of kind k whose memory holds the bit pattern n. Any
      nonzero pattern reads as the bool true. */
  function FromBits(k: Kind, n: nat): (v: Value)
    requires IsScalar(k) && n < Pow256(Width(k))
    ensures KindOf(v) == k
  {
    PowWidths();
    match k
    case UInt8 => U8(n)
    case UInt16 => U16(n)
    case UInt32 => U32(n)
    case UInt64 => U64(n)
    case Boolean => Bool(n != 0)
    case Float32 => Float(n)
    case Float64 => Double(n)
  }

  lemma FromBitsOfBits(v: Value)
    requires IsScalar(KindOf(v))
    ensures FromBits(KindOf(v), Bits(v)) == v
  {
  }

  lemma BitsOfFromBits(k: Kind, n: nat)
    requires IsScalar(k) && k != Boolean && n < Pow256(Width(k))
    ensures Bits(FromBits(k, n)) == n
  {
  }

  /** The bytes the encode operator for v appends to the stream: the memory
      image of a scalar, and for a string the 32-bit length followed by that
      many bytes of the string. */
  function Encode(v: Value): (r: seq<byte>)
    ensures |r| == if v.Str? then 4 + Length32(v.chars) else Width(KindOf(v))
  {
    PowWidths();
    if v.Str? then HostBytes(Length32(v.chars), 4) + v.chars[..Length32(v.chars)]
    else HostBytes(Bits(v), Width(KindOf(v)))
  }

  /** The bytes of a string after its length prefix. */
  lemma StringLayout(cs: seq<byte>)
    ensures Encode(Str(cs)) == Encode(U32(Length32(cs))) + cs[..Length32(cs)]
  {
  }

  /** What the decode operator for kind k takes from the front of s: the value
      and the bytes after it, or None when s ends too early. */
  function Decode(k: Kind, s: seq<byte>): (r: Option<(Value, seq<byte>)>)
    ensures r.Some? ==> KindOf(r.value.0) == k
    ensures r.Some? ==> |r.value.1| < |s| && r.value.1 == s[|s| - |r.value.1|..]
    ensures IsScalar(k) ==> (r.Some? <==> Width(k) <= |s|)
  {
    if IsScalar(k) then
      if |s| < Width(k) then None
      else Some((FromBits(k, HostValue(s[..Width(k)])), s[Width(k)..]))
    else if |s| < 4 then None
    else
      var len := HostValue(s[..4]);
      if |s| - 4 < len then None
      else Some((Str(s[4..4 + len]), s[4 + len..]))
  }

  lemma DecodeEncodeString(cs: seq<byte>, rest: seq<byte>)
    ensures Decode(StdString, Encode(Str(cs)) + rest) == Some((Str(cs[..Length32(cs)]), rest))
  {
    var len := Length32(cs);
    var s := Encode(Str(cs)) + rest;
    PowWidths();
    assert s[..4] == HostBytes(len, 4);
    ValueOfBytes(len, 4);
    assert s[4..4 + len] == cs[..len];
    assert s[4 + len..] == rest;
  }

  /** Decoding what was encoded gives back the value, bit for bit, and leaves
      exactly the bytes that followed. */
  lemma DecodeEncode(v: Value, rest: seq<byte>)
    requires Fits(v)
    ensures Decode(KindOf(v), Encode(v) + rest) == Some((v, rest))
  {
    if v.Str? {
      DecodeEncodeString(v.chars, rest);
      assert v.chars[..Length32(v.chars)] == v.chars;
    } else {
      var s := Encode(v) + rest;
      assert s[..Width(KindOf(v))] == Encode(v);
      ValueOfBytes(Bits(v), Width(KindOf(v)));
      FromBitsOfBits(v);
    }
  }

  /** The converse for a scalar of any kind but bool: the bytes consumed are
      the encoding of the value returned. */
  lemma EncodeDecodeScalar(k: Kind, s: seq<byte>)
    requires IsScalar(k) && k != Boolean && Width(k) <= |s|
    ensures Decode(k, s) == Some((FromBits(k, HostValue(s[..Width(k)])), s[Width(k)..]))
    ensures Encode(FromBits(k, HostValue(s[..Width(k)]))) == s[..Width(k)]
  {
    var w := Width(k);
    BytesOfValue(s[..w]);
    BitsOfFromBits(k, HostValue(s[..w]));
  }

  /** The converse for a string: the bytes consumed are the encoding of the
      string returned. */
  lemma EncodeDecodeString(s: seq<byte>)
    requires Decode(StdString, s).Some?
    ensures var len := HostValue(s[..4]);
      && len < 0x1_0000_0000
      && Decode(StdString, s) == Some((Str(s[4..4 + len]), s[4 + len..]))
      && Encode(Str(s[4..4 + len])) == s[..4] + s[4..4 + len]
  {
    PowWidths();
    BytesOfValue(s[..4]);
  }

  /** The converse: what a decoder consumed is exactly the encoding of what it
      returned. A bool is the exception, since every nonzero byte reads as true. */
  lemma EncodeDecode(k: Kind, s: seq<byte>)
    requires k != Boolean && Decode(k, s).Some?
    ensures Fits(Decode(k, s).value.0)
    ensures s == Encode(Decode(k, s).value.0) + Decode(k, s).value.1
  {
    if IsScalar(k) {
      var w := Width(k);
      EncodeDecodeScalar(k, s);
      assert s == s[..w] + s[w..];
    } else {
      var len := HostValue(s[..4]);
      EncodeDecodeString(s);
      assert s == s[..4] + s[4..4 + len] + s[4 + len..];
    }
  }

  // ---------------------------------------------------------------------
  // Associative arrays

  /** The contents of an associative array: a default value kept apart from
      the key-to-value entries. */
  datatype Assoc = Assoc(def: Value, entries: map<Value, Value>)

  /** order lists the keys once each: the container's iteration order. */
  ghost predicate IsEnumeration(order: seq<Value>, keys: set<Value>)
  {
    && (forall i, j :: 0 <= i < j < |order| ==> order[i] != order[j])
    && (forall k :: k in keys <==> k in order)
  }

  /** An associative array whose default, keys and values all have the
      array's declared key and value kinds and can be taken back unchanged. */
  ghost predicate WellFormed(a: Assoc, keyKind: Kind, valueKind: Kind)
  {
    && KindOf(a.def) == valueKind && Fits(a.def)
    && |a.entries| < 0x1_0000_0000
    && (forall k :: k in a.entries ==> KindOf(k) == keyKind && Fits(k))
    && (forall k :: k in a.entries ==> KindOf(a.entries[k]) == valueKind && Fits(a.entries[k]))
  }

  /** The (key, value) pairs in the order the keys are listed. */
  function PairsInOrder(order: seq<Value>, m: map<Value, Value>): (ps: seq<(Value, Value)>)
    requires forall i :: 0 <= i < |order| ==> order[i] in m
    ensures |ps| == |order|
    ensures forall i :: 0 <= i < |ps| ==> ps[i] == (order[i], m[order[i]])
  {
    seq(|order|, i requires 0 <= i < |order| => (order[i], m[order[i]]))
  }

  /** Each pair as its key's encoding followed by its value's encoding. */
  function EncodePairs(ps: seq<(Value, Value)>): (r: seq<byte>)
    ensures |r| >= 2 * |ps|
  {
    if ps == [] then [] else Encode(ps[0].0) + Encode(ps[0].1) + EncodePairs(ps[1..])
  }

  /** The bytes of a pair followed by other pairs. */
  lemma EncodePairsHead(q: (Value, Value), qs: seq<(Value, Value)>)
    ensures EncodePairs([q] + qs) == Encode(q.0) + Encode(q.1) + EncodePairs(qs)
  {
    assert ([q] + qs)[1..] == qs;
  }

  lemma {:induction false} EncodePairsSnoc(ps: seq<(Value, Value)>, p: (Value, Value))
    ensures EncodePairs(ps + [p]) == EncodePairs(ps) + Encode(p.0) + Encode(p.1)
    decreases |ps|
  {
    if ps == [] {
      assert ps + [p] == [p] + [];
      EncodePairsHead(p, []);
    } else {
      var q, qs := ps[0], ps[1..];
      var e := Encode(q.0) + Encode(q.1);
      assert ps == [q] + qs;
      assert ps + [p] == [q] + (qs + [p]);
      EncodePairsHead(q, qs + [p]);
      EncodePairsHead(q, qs);
      EncodePairsSnoc(qs, p);
      AppendAssoc(e, EncodePairs(qs) + Encode(p.0), Encode(p.1));
      AppendAssoc(e, EncodePairs(qs), Encode(p.0));
    }
  }

  lemma EncodePairsPrefix(ps: seq<(Value, Value)>, i: nat)
    requires i < |ps|
    ensures EncodePairs(ps[..i + 1]) == EncodePairs(ps[..i]) + Encode(ps[i].0) + Encode(ps[i].1)
  {
    assert ps[..i + 1] == ps[..i] + [ps[i]];
    EncodePairsSnoc(ps[..i], ps[i]);
  }

  /** The bytes the encode operator for an associative array appends: the
      default, the entry count truncated to 32 bits, then every pair in
      iteration order. */
  ghost function EncodeAssoc(a: Assoc, order: seq<Value>): (r: seq<byte>)
    requires IsEnumeration(order, a.entries.Keys)
    ensures |r| >= |Encode(a.def)| + 4 + 2 * |order|
  {
    PowWidths();
    Encode(a.def) + Encode(U32(Trunc32(|a.entries|))) + EncodePairs(PairsInOrder(order, a.entries))
  }

  /** The map left by assigning each pair in turn, as at(key) = value does. */
  function InsertAll(acc: map<Value, Value>, ps: seq<(Value, Value)>): (r: map<Value, Value>)
    ensures acc.Keys <= r.Keys
    ensures forall i :: 0 <= i < |ps| ==> ps[i].0 in r
    decreases |ps|
  {
    if ps == [] then acc else InsertAll(acc[ps[0].0 := ps[0].1], ps[1..])
  }

  /** The n pairs read from s, in stream order, and what follows them. */
  function ReadPairs(keyKind: Kind, valueKind: Kind, n: nat, s: seq<byte>)
    : (r: Option<(seq<(Value, Value)>, seq<byte>)>)
    ensures r.Some? ==> |r.value.0| == n && |r.value.1| <= |s|
  {
    if n == 0 then Some(([], s))
    else match Decode(keyKind, s)
      case None => None
      case Some((key, s1)) =>
        match Decode(valueKind, s1)
        case None => None
        case Some((val, s2)) =>
          match ReadPairs(keyKind, valueKind, n - 1, s2)
          case None => None
          case Some((ps, s3)) => Some(([(key, val)] + ps, s3))
  }

  /** Reading n pairs from s and assigning each in turn into acc. */
  function DecodePairs(keyKind: Kind, valueKind: Kind, n: nat, acc: map<Value, Value>, s: seq<byte>)
    : (r: Option<(map<Value, Value>, seq<byte>)>)
    ensures r.Some? ==> acc.Keys <= r.value.0.Keys && |r.value.1| <= |s|
  {
    match ReadPairs(keyKind, valueKind, n, s)
    case None => None
    case Some((ps, rest)) => Some((InsertAll(acc, ps), rest))
  }

  /** One step of ReadPairs, once the first key and value are known. */
  lemma ReadPairsStep(keyKind: Kind, valueKind: Kind, n: nat, s: seq<byte>,
                      key: Value, s1: seq<byte>, val: Value, s2: seq<byte>)
    requires n > 0
    requires Decode(keyKind, s) == Some((key, s1)) && Decode(valueKind, s1) == Some((val, s2))
    ensures ReadPairs(keyKind, valueKind, n, s)
         == match ReadPairs(keyKind, valueKind, n - 1, s2)
            case None => None
            case Some((ps, s3)) => Some(([(key, val)] + ps, s3))
  {
  }

  /** Decoding pairs one at a time, as the decode loop does: a key, its
      value, the assignment, then the remaining pairs. */
  lemma DecodePairsUnfold(keyKind: Kind, valueKind: Kind, n: nat, acc: map<Value, Value>, s: seq<byte>)
    requires n > 0
    ensures DecodePairs(keyKind, valueKind, n, acc, s)
         == match Decode(keyKind, s)
            case None => None
            case Some((key, s1)) =>
              match Decode(valueKind, s1)
              case None => None
              case Some((val, s2)) => DecodePairs(keyKind, valueKind, n - 1, acc[key := val], s2)
  {
    if Decode(keyKind, s).Some? {
      var (key, s1) := Decode(keyKind, s).value;
      if Decode(valueKind, s1).Some? {
        var (val, s2) := Decode(valueKind, s1).value;
        ReadPairsStep(keyKind, valueKind, n, s, key, s1, val, s2);
        if ReadPairs(keyKind, valueKind, n - 1, s2).Some? {
          var ps := ReadPairs(keyKind, valueKind, n - 1, s2).value.0;
          assert ([(key, val)] + ps)[1..] == ps;
        }
      }
    }
  }

  /** The keys assigned are those acc had and those the pairs name. */
  lemma {:induction false} InsertAllKeys(acc: map<Value, Value>, ps: seq<(Value, Value)>)
    ensures InsertAll(acc, ps).Keys == acc.Keys + set j | 0 <= j < |ps| :: ps[j].0
    decreases |ps|
  {
    if ps != [] {
      InsertAllKeys(acc[ps[0].0 := ps[0].1], ps[1..]);
      var tail := set j | 0 <= j < |ps[1..]| :: ps[1..][j].0;
      var all := set j | 0 <= j < |ps| :: ps[j].0;
      assert all == {ps[0].0} + tail by {
        forall k | k in all ensures k in {ps[0].0} + tail {
          var j :| 0 <= j < |ps| && ps[j].0 == k;
          if j > 0 {
            assert ps[1..][j - 1].0 == k;
          }
        }
        forall k | k in tail ensures k in all {
          var j :| 0 <= j < |ps[1..]| && ps[1..][j].0 == k;
          assert ps[j + 1].0 == k;
        }
      }
    }
  }

  /** A decoded array holds exactly the keys the stream names, and each key
      has the value of its last pair in the stream. */
  lemma DecodePairsLastWins(keyKind: Kind, valueKind: Kind, n: nat, s: seq<byte>, i: nat)
    requires ReadPairs(keyKind, valueKind, n, s).Some? && i < n
    requires var ps := ReadPairs(keyKind, valueKind, n, s).value.0;
      forall j :: i < j < n ==> ps[j].0 != ps[i].0
    ensures DecodePairs(keyKind, valueKind, n, map[], s).Some?
    ensures var ps := ReadPairs(keyKind, valueKind, n, s).value.0;
      var m := DecodePairs(keyKind, valueKind, n, map[], s).value.0;
      && m.Keys == (set j | 0 <= j < n :: ps[j].0)
      && ps[i].0 in m && m[ps[i].0] == ps[i].1
  {
    var ps := ReadPairs(keyKind, valueKind, n, s).value.0;
    InsertAllKeys(map[], ps);
    InsertAllLastWins(map[], ps, i);
  }

  /** The decode operator for an associative array: the default, the count,
      then that many pairs into an emptied map. */
  function DecodeAssoc(keyKind: Kind, valueKind: Kind, s: seq<byte>): (r: Option<(Assoc, seq<byte>)>)
    ensures r.Some? ==> KindOf(r.value.0.def) == valueKind && |r.value.1| < |s|
  {
    match Decode(valueKind, s)
    case None => None
    case Some((def, s1)) =>
      match Decode(UInt32, s1)
      case None => None
      case Some((count, s2)) =>
        match DecodePairs(keyKind, valueKind, count.u32Val, map[], s2)
        case None => None
        case Some((m, s3)) => Some((Assoc(def, m), s3))
  }

  /** The bytes of a pair followed by other pairs: the key, its value, then
      the others. */
  lemma EncodePairsCons(p: (Value, Value), qs: seq<(Value, Value)>, rest: seq<byte>)
    ensures EncodePairs([p] + qs) + rest == Encode(p.0) + (Encode(p.1) + (EncodePairs(qs) + rest))
  {
    EncodePairsHead(p, qs);
    AppendAssoc(Encode(p.0) + Encode(p.1), EncodePairs(qs), rest);
    AppendAssoc(Encode(p.0), Encode(p.1), EncodePairs(qs) + rest);
  }

  /** A written key and value, followed by bytes holding n - 1 more pairs,
      read back as n pairs. */
  lemma ReadPairsOfPair(keyKind: Kind, valueKind: Kind, n: nat, key: Value, val: Value,
                        tail: seq<byte>, ps: seq<(Value, Value)>, rest: seq<byte>)
    requires n > 0
    requires KindOf(key) == keyKind && Fits(key) && KindOf(val) == valueKind && Fits(val)
    requires ReadPairs(keyKind, valueKind, n - 1, tail) == Some((ps, rest))
    ensures ReadPairs(keyKind, valueKind, n, Encode(key) + (Encode(val) + tail)) == Some(([(key, val)] + ps, rest))
  {
    var s1 := Encode(val) + tail;
    DecodeEncode(key, s1);
    DecodeEncode(val, tail);
    ReadPairsStep(keyKind, valueKind, n, Encode(key) + s1, key, s1, val, tail);
  }

  /** The inductive step of ReadEncodePairs: the first pair reads back, and
      then the others do. */
  lemma ReadEncodePairsStep(keyKind: Kind, valueKind: Kind, p: (Value, Value), qs: seq<(Value, Value)>, rest: seq<byte>)
    requires KindOf(p.0) == keyKind && Fits(p.0) && KindOf(p.1) == valueKind && Fits(p.1)
    requires ReadPairs(keyKind, valueKind, |qs|, EncodePairs(qs) + rest) == Some((qs, rest))
    ensures ReadPairs(keyKind, valueKind, |qs| + 1, EncodePairs([p] + qs) + rest) == Some(([p] + qs, rest))
  {
    ReadPairsOfPair(keyKind, valueKind, |qs| + 1, p.0, p.1, EncodePairs(qs) + rest, qs, rest);
    EncodePairsCons(p, qs, rest);
  }

  /** Reading back |ps| written pairs gives ps and leaves what followed. */
  lemma {:induction false} ReadEncodePairs(
    keyKind: Kind, valueKind: Kind, ps: seq<(Value, Value)>, rest: seq<byte>)
    requires forall i :: 0 <= i < |ps| ==> KindOf(ps[i].0) == keyKind && Fits(ps[i].0)
    requires forall i :: 0 <= i < |ps| ==> KindOf(ps[i].1) == valueKind && Fits(ps[i].1)
    ensures ReadPairs(keyKind, valueKind, |ps|, EncodePairs(ps) + rest) == Some((ps, rest))
  {
    if ps != [] {
      ReadEncodePairs(keyKind, valueKind, ps[1..], rest);
      ReadEncodePairsStep(keyKind, valueKind, ps[0], ps[1..], rest);
      assert [ps[0]] + ps[1..] == ps;
    } else {
      assert EncodePairs(ps) + rest == rest;
    }
  }

  lemma DecodeEncodePairs(
    keyKind: Kind, valueKind: Kind, ps: seq<(Value, Value)>, acc: map<Value, Value>, rest: seq<byte>)
    requires forall i :: 0 <= i < |ps| ==> KindOf(ps[i].0) == keyKind && Fits(ps[i].0)
    requires forall i :: 0 <= i < |ps| ==> KindOf(ps[i].1) == valueKind && Fits(ps[i].1)
    ensures DecodePairs(keyKind, valueKind, |ps|, acc, EncodePairs(ps) + rest) == Some((InsertAll(acc, ps), rest))
  {
    ReadEncodePairs(keyKind, valueKind, ps, rest);
  }

  /** A key that several pairs share ends up with the value of the last of them. */
  lemma {:induction false} InsertAllLastWins(acc: map<Value, Value>, ps: seq<(Value, Value)>, i: nat)
    requires i < |ps|
    requires forall j :: i < j < |ps| ==> ps[j].0 != ps[i].0
    ensures ps[i].0 in InsertAll(acc, ps) && InsertAll(acc, ps)[ps[i].0] == ps[i].1
    decreases |ps|
  {
    if i == 0 {
      InsertAllAbsent(acc[ps[0].0 := ps[0].1], ps[1..], ps[0].0);
    } else {
      InsertAllLastWins(acc[ps[0].0 := ps[0].1], ps[1..], i - 1);
    }
  }

  /** A key no pair mentions keeps what acc had for it. */
  lemma {:induction false} InsertAllAbsent(acc: map<Value, Value>, ps: seq<(Value, Value)>, k: Value)
    requires forall j :: 0 <= j < |ps| ==> ps[j].0 != k
    ensures k in InsertAll(acc, ps) <==> k in acc
    ensures k in acc ==> InsertAll(acc, ps)[k] == acc[k]
    decreases |ps|
  {
    if ps != [] {
      InsertAllAbsent(acc[ps[0].0 := ps[0].1], ps[1..], k);
    }
  }

  /** A list without repeats is as long as the set of its elements. */
  lemma {:induction false} DistinctLength(order: seq<Value>, keys: set<Value>)
    requires IsEnumeration(order, keys)
    ensures |order| == |keys|
  {
    if order != [] {
      var tail := order[1..];
      assert IsEnumeration(tail, keys - {order[0]}) by {
        forall k ensures k in keys - {order[0]} <==> k in tail {
          if k in tail {
            var j :| 0 <= j < |tail| && tail[j] == k;
            assert order[j + 1] == k;
          }
          if k in keys && k != order[0] {
            assert k in order;
            var j :| 0 <= j < |order| && order[j] == k;
            assert tail[j - 1] == k;
          }
        }
      }
      DistinctLength(tail, keys - {order[0]});
    } else {
      assert forall k :: k !in keys;
    }
  }

  /** Assigning the pairs of m in any iteration order rebuilds m. */
  lemma InsertAllEnumeration(order: seq<Value>, m: map<Value, Value>)
    requires IsEnumeration(order, m.Keys)
    ensures InsertAll(map[], PairsInOrder(order, m)) == m
  {
    var ps := PairsInOrder(order, m);
    var r := InsertAll(map[], ps);
    forall k | k in m ensures k in r && r[k] == m[k] {
      assert k in order;
      var i :| 0 <= i < |order| && order[i] == k;
      assert forall j :: i < j < |ps| ==> ps[j].0 == order[j] && order[j] != order[i];
      InsertAllLastWins(map[], ps, i);
    }
    forall k | k !in m ensures k !in r {
      assert forall j :: 0 <= j < |ps| ==> ps[j].0 == order[j] && order[j] in m;
      InsertAllAbsent(map[], ps, k);
    }
    assert r.Keys == m.Keys;
  }

  /** The pairs of a well-formed array, in any iteration order, are well-kinded. */
  lemma PairsWellFormed(a: Assoc, keyKind: Kind, valueKind: Kind, order: seq<Value>)
    requires WellFormed(a, keyKind, valueKind)
    requires IsEnumeration(order, a.entries.Keys)
    ensures forall i :: 0 <= i < |order| ==>
      KindOf(PairsInOrder(order, a.entries)[i].0) == keyKind && Fits(PairsInOrder(order, a.entries)[i].0)
    ensures forall i :: 0 <= i < |order| ==>
      KindOf(PairsInOrder(order, a.entries)[i].1) == valueKind && Fits(PairsInOrder(order, a.entries)[i].1)
  {
    forall i | 0 <= i < |order|
      ensures KindOf(order[i]) == keyKind && Fits(order[i])
      ensures KindOf(a.entries[order[i]]) == valueKind && Fits(a.entries[order[i]])
    {
      assert order[i] in a.entries;
    }
  }

  lemma EncodeAssocLayout(a: Assoc, order: seq<Value>, rest: seq<byte>)
    requires |a.entries| < 0x1_0000_0000
    requires IsEnumeration(order, a.entries.Keys)
    ensures EncodeAssoc(a, order) + rest
         == Encode(a.def) + (Encode(U32(|a.entries|)) + (EncodePairs(PairsInOrder(order, a.entries)) + rest))
  {
  }

  /** One decoding step per field of the associative-array layout. */
  lemma DecodeAssocSteps(keyKind: Kind, valueKind: Kind, s: seq<byte>, def: Value, s1: seq<byte>,
                         count: u32, s2: seq<byte>, m: map<Value, Value>, s3: seq<byte>)
    requires Decode(valueKind, s) == Some((def, s1))
    requires Decode(UInt32, s1) == Some((U32(count), s2))
    requires DecodePairs(keyKind, valueKind, count, map[], s2) == Some((m, s3))
    ensures DecodeAssoc(keyKind, valueKind, s) == Some((Assoc(def, m), s3))
  {
  }

  /** The pairs of a well-formed array decode back to its entries. */
  lemma DecodeEncodeEntries(a: Assoc, keyKind: Kind, valueKind: Kind, order: seq<Value>, rest: seq<byte>)
    requires WellFormed(a, keyKind, valueKind)
    requires IsEnumeration(order, a.entries.Keys)
    ensures DecodePairs(keyKind, valueKind, |a.entries|, map[], EncodePairs(PairsInOrder(order, a.entries)) + rest)
         == Some((a.entries, rest))
  {
    DistinctLength(order, a.entries.Keys);
    PairsWellFormed(a, keyKind, valueKind, order);
    DecodeEncodePairs(keyKind, valueKind, PairsInOrder(order, a.entries), map[], rest);
    InsertAllEnumeration(order, a.entries);
  }

  /** Decoding an encoded associative array gives back its default and its
      key-to-value mapping, whatever order the pairs were written in. */
  lemma DecodeEncodeAssoc(a: Assoc, keyKind: Kind, valueKind: Kind, order: seq<Value>, rest: seq<byte>)
    requires WellFormed(a, keyKind, valueKind)
    requires IsEnumeration(order, a.entries.Keys)
    ensures DecodeAssoc(keyKind, valueKind, EncodeAssoc(a, order) + rest) == Some((a, rest))
  {
    var n: u32 := |a.entries|;
    var pairs := EncodePairs(PairsInOrder(order, a.entries)) + rest;
    var s1 := Encode(U32(n)) + pairs;
    EncodeAssocLayout(a, order, rest);
    DecodeEncode(a.def, s1);
    DecodeEncode(U32(n), pairs);
    DecodeEncodeEntries(a, keyKind, valueKind, order, rest);
    DecodeAssocSteps(keyKind, valueKind, EncodeAssoc(a, order) + rest, a.def, s1, n, pairs, a.entries, rest);
  }
}
