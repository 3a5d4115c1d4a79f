/** The typed encode and decode operators over the buffered writer and
    reader: fixed-width scalars, strings and associative arrays. */
module Codec {
  import opened Wire
  import opened Wrappers
  import opened Format
  import Serialize
  import Deserialize

  type Serializer = Serialize.Serializer
  type Deserializer = Deserialize.Deserializer

  /** A decode operator did what its wire format says: it failed on a
      truncated stream, or it returned the decoded value and left the stream
      just after it. */
  ghost predicate Agrees<V>(spec: Option<(V, seq<byte>)>, r: Result<V, Deserialize.Error>, rest: seq<byte>)
  {
    match spec
    case None => r == Failure(Deserialize.Truncated)
    case Some((v, after)) => r == Success(v) && rest == after
  }

  /** An associative array with a default value for keys it does not hold.
      Its key and value kinds stand for the container's type parameters. */
  class AssocArray {
    const keyKind: Kind
    const valueKind: Kind
    var def: Value
    var entries: map<Value, Value>

    ghost predicate Valid()
      reads this
    {
      && KindOf(def) == valueKind
      && (forall k :: k in entries ==> KindOf(k) == keyKind && KindOf(entries[k]) == valueKind)
    }

    ghost function Contents(): Assoc
      reads this
    {
      Assoc(def, entries)
    }

    constructor (keyKind: Kind, valueKind: Kind, def: Value)
      requires KindOf(def) == valueKind
      ensures Valid()
      ensures this.keyKind == keyKind && this.valueKind == valueKind
      ensures Contents() == Assoc(def, map[])
    {
      this.keyKind := keyKind;
      this.valueKind := valueKind;
      this.def := def;
      this.entries := map[];
    }

    /** Remove every entry; the default is kept. */
    method Clear()
      requires Valid()
      modifies this
      ensures Valid()
      ensures def == old(def) && entries == map[]
    {
      entries := map[];
    }

    /** at(key) = value: insert the entry, or overwrite the key's value. */
    method Put(key: Value, value: Value)
      requires Valid() && KindOf(key) == keyKind && KindOf(value) == valueKind
      modifies this
      ensures Valid()
      ensures def == old(def) && entries == old(entries)[key := value]
    {
      entries := entries[key := value];
    }
  }

  /** The operator << of a fixed-width scalar: appends its memory image. */
  method WriteScalar(os: Serializer, v: Value)
    requires os.Valid() && IsScalar(KindOf(v))
    modifies os, os.buf
    ensures os.Valid()
    ensures os.Stream() == old(os.Stream()) + Encode(v)
  {
    os.Write(Encode(v));
  }

  /** The operator >> of a fixed-width scalar: reads its sizeof bytes back. */
  method ReadScalar(ds: Deserializer, k: Kind) returns (r: Result<Value, Deserialize.Error>)
    requires ds.Valid() && IsScalar(k)
    modifies ds, ds.buf
    ensures ds.Valid()
    ensures Agrees(Decode(k, old(ds.Remaining())), r, ds.Remaining())
  {
    var bytes :- ds.Read(Width(k));
    r := Success(FromBits(k, HostValue(bytes)));
  }

  /** The operator << of a string: its length as a 32-bit value, then that
      many of its bytes. */
  method WriteString(os: Serializer, chars: seq<byte>)
    requires os.Valid()
    modifies os, os.buf
    ensures os.Valid()
    ensures os.Stream() == old(os.Stream()) + Encode(Str(chars))
  {
    ghost var s0 := os.Stream();
    var len := Length32(chars);
    WriteScalar(os, U32(len));
    os.Write(chars[..len]);
    StringLayout(chars);
    AppendAssoc(s0, Encode(U32(len)), chars[..len]);
  }

  /** The operator >> of a string: the length, then a string of that many
      bytes read from the stream. */
  method ReadString(ds: Deserializer) returns (r: Result<Value, Deserialize.Error>)
    requires ds.Valid()
    modifies ds, ds.buf
    ensures ds.Valid()
    ensures Agrees(Decode(StdString, old(ds.Remaining())), r, ds.Remaining())
  {
    ghost var s := ds.Remaining();
    var len :- ReadScalar(ds, UInt32);
    assert ds.Remaining() == s[4..];
    var chars :- ds.Read(len.u32Val);
    assert chars == s[4..4 + len.u32Val] && ds.Remaining() == s[4 + len.u32Val..];
    r := Success(Str(chars));
  }

  /** The operator << that a value's type selects. */
  method WriteValue(os: Serializer, v: Value)
    requires os.Valid()
    modifies os, os.buf
    ensures os.Valid()
    ensures os.Stream() == old(os.Stream()) + Encode(v)
  {
    if v.Str? {
      WriteString(os, v.chars);
    } else {
      WriteScalar(os, v);
    }
  }

  /** The operator >> that a kind selects. */
  method ReadValue(ds: Deserializer, k: Kind) returns (r: Result<Value, Deserialize.Error>)
    requires ds.Valid()
    modifies ds, ds.buf
    ensures ds.Valid()
    ensures Agrees(Decode(k, old(ds.Remaining())), r, ds.Remaining())
  {
    if k == StdString {
      r := ReadString(ds);
    } else {
      r := ReadScalar(ds, k);
    }
  }

  /** The operator << of an associative array: the default, the entry count
      as a 32-bit value, then each key and value in iteration order. */
  method WriteAssoc(os: Serializer, a: AssocArray, order: seq<Value>)
    requires os.Valid()
    requires IsEnumeration(order, a.entries.Keys)
    modifies os, os.buf
    ensures os.Valid()
    ensures os.Stream() == old(os.Stream()) + EncodeAssoc(a.Contents(), order)
  {
    ghost var s0 := os.Stream();
    WriteValue(os, a.def);
    var len := Trunc32(|a.entries|);
    WriteScalar(os, U32(len));
    WritePairs(os, a.entries, order);
    AppendAssoc4(s0, Encode(a.def), Encode(U32(len)), EncodePairs(PairsInOrder(order, a.entries)));
  }

  /** One iteration of WriteAssoc's loop: a key, then its value. */
  method WritePair(os: Serializer, index: Value, value: Value)
    requires os.Valid()
    modifies os, os.buf
    ensures os.Valid()
    ensures os.Stream() == old(os.Stream()) + Encode(index) + Encode(value)
  {
    WriteValue(os, index);
    WriteValue(os, value);
  }

  /** The loop of WriteAssoc: each key of the iteration order, then its value. */
  method WritePairs(os: Serializer, m: map<Value, Value>, order: seq<Value>)
    requires os.Valid()
    requires forall i :: 0 <= i < |order| ==> order[i] in m
    modifies os, os.buf
    ensures os.Valid()
    ensures os.Stream() == old(os.Stream()) + EncodePairs(PairsInOrder(order, m))
  {
    ghost var start := os.Stream();
    ghost var ps := PairsInOrder(order, m);
    assert ps[..0] == [];
    for i := 0 to |order|
      invariant os.Valid()
      invariant os.Stream() == start + EncodePairs(ps[..i])
    {
      var index := order[i];
      var value := m[index];
      ghost var done := EncodePairs(ps[..i]);
      WritePair(os, index, value);
      EncodePairsPrefix(ps, i);
      AppendAssoc4(start, done, Encode(index), Encode(value));
    }
    assert ps[..|order|] == ps;
  }

  /** One iteration of ReadAssoc's loop: a key, its value, then at(key) =
      value. It takes one step of DecodePairs with n pairs still to read. */
  method ReadPair(ds: Deserializer, a: AssocArray, ghost n: nat) returns (r: Outcome<Deserialize.Error>)
    requires ds.Valid() && a.Valid() && n > 0
    modifies ds, ds.buf, a
    ensures ds.Valid() && a.Valid() && a.def == old(a.def)
    ensures r == Pass ==>
      DecodePairs(a.keyKind, a.valueKind, n - 1, a.entries, ds.Remaining())
      == old(DecodePairs(a.keyKind, a.valueKind, n, a.entries, ds.Remaining()))
    ensures r != Pass ==>
      r == Fail(Deserialize.Truncated) && old(DecodePairs(a.keyKind, a.valueKind, n, a.entries, ds.Remaining())) == None
    ensures r != Pass <==>
      (old(Decode(a.keyKind, ds.Remaining())).None?
       || Decode(a.valueKind, old(Decode(a.keyKind, ds.Remaining())).value.1).None?)
  {
    DecodePairsUnfold(a.keyKind, a.valueKind, n, a.entries, ds.Remaining());
    var index := ReadValue(ds, a.keyKind);
    if index.Failure? {
      return Fail(index.error);
    }
    var value := ReadValue(ds, a.valueKind);
    if value.Failure? {
      return Fail(value.error);
    }
    a.Put(index.value, value.value);
    r := Pass;
  }

  /** The operator >> of an associative array: the default into the
      default slot, the count, then clear the entries and assign each pair
      read with at(key) = value. */
  method ReadAssoc(ds: Deserializer, a: AssocArray) returns (r: Outcome<Deserialize.Error>)
    requires ds.Valid() && a.Valid()
    modifies ds, ds.buf, a
    ensures ds.Valid() && a.Valid()
    ensures match DecodeAssoc(a.keyKind, a.valueKind, old(ds.Remaining()))
      case None => r == Fail(Deserialize.Truncated)
      case Some((v, rest)) => r == Pass && a.Contents() == v && ds.Remaining() == rest
  {
    var d := ReadValue(ds, a.valueKind);
    if d.Failure? {
      return Fail(d.error);
    }
    a.def := d.value;
    var count := ReadScalar(ds, UInt32);
    if count.Failure? {
      return Fail(count.error);
    }
    var len := count.value.u32Val;
    a.Clear();
    r := ReadEntries(ds, a, len);
  }

  /** The loop of ReadAssoc: len pairs, each assigned with at(key) = value. */
  method ReadEntries(ds: Deserializer, a: AssocArray, len: u32) returns (r: Outcome<Deserialize.Error>)
    requires ds.Valid() && a.Valid()
    modifies ds, ds.buf, a
    ensures ds.Valid() && a.Valid() && a.def == old(a.def)
    ensures match old(DecodePairs(a.keyKind, a.valueKind, len, a.entries, ds.Remaining()))
      case None => r == Fail(Deserialize.Truncated)
      case Some((m, rest)) => r == Pass && a.entries == m && ds.Remaining() == rest
  {
    ghost var target := DecodePairs(a.keyKind, a.valueKind, len, a.entries, ds.Remaining());
    var i := 0;
    while i < len
      invariant 0 <= i <= len
      invariant ds.Valid() && a.Valid() && a.def == old(a.def)
      invariant DecodePairs(a.keyKind, a.valueKind, len - i, a.entries, ds.Remaining()) == target
    {
      var step := ReadPair(ds, a, len - i);
      if step != Pass {
        return step;
      }
      i := i + 1;
    }
    r := Pass;
  }

  /** A save: a value and an associative array written through a fresh
      writer, which is then closed; the result is the file contents. */
  method Save(v: Value, src: AssocArray, order: seq<Value>) returns (contents: seq<byte>)
    requires src.Valid() && IsEnumeration(order, src.entries.Keys)
    ensures contents == Encode(v) + EncodeAssoc(src.Contents(), order)
  {
    var os := new Serialize.Serializer();
    WriteValue(os, v);
    assert os.Stream() == Encode(v);
    WriteAssoc(os, src, order);
    os.Close();
    contents := os.sink;
  }

  /** A restore: a value of kind k and an associative array read back by a
      fresh reader over the file contents. */
  method Restore(contents: seq<byte>, k: Kind, keyKind: Kind, valueKind: Kind, def: Value)
    returns (rv: Result<Value, Deserialize.Error>, ra: Outcome<Deserialize.Error>, got: Assoc)
    requires KindOf(def) == valueKind
    ensures match Decode(k, contents)
      case None => rv == Failure(Deserialize.Truncated)
      case Some((x, after)) =>
        && rv == Success(x)
        && match DecodeAssoc(keyKind, valueKind, after)
           case None => ra == Fail(Deserialize.Truncated)
           case Some((y, _)) => ra == Pass && got == y
  {
    var ds := new Deserialize.Deserializer(contents);
    rv := ReadValue(ds, k);
    var dst := new AssocArray(keyKind, valueKind, def);
    ra := ReadAssoc(ds, dst);
    got := Assoc(dst.def, dst.entries);
  }

  /** A save followed by a restore gives back the value and the array. */
  method SaveRestore(v: Value, src: AssocArray, order: seq<Value>)
    returns (rv: Result<Value, Deserialize.Error>, ra: Outcome<Deserialize.Error>, got: Assoc)
    requires Fits(v) && src.Valid()
    requires WellFormed(src.Contents(), src.keyKind, src.valueKind)
    requires IsEnumeration(order, src.entries.Keys)
    ensures rv == Success(v) && ra == Pass && got == src.Contents()
  {
    var contents := Save(v, src, order);
    ghost var image := EncodeAssoc(src.Contents(), order);
    DecodeEncode(v, image);
    assert image + [] == image;
    DecodeEncodeAssoc(src.Contents(), src.keyKind, src.valueKind, order, []);
    rv, ra, got := Restore(contents, KindOf(v), src.keyKind, src.valueKind, src.def);
  }
}
