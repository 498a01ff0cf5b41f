/**
 * The two concrete FreeD message kinds (FreeD.py:64-125): D1, camera
 * position and orientation, 29 bytes; DA, camera calibration, 30 bytes.
 * Each is a dataclass whose attributes are the data fields, plus the
 * class attribute `_id` (the type tag written as the first byte).
 */
module Schemas {
  import opened Wrappers
  import opened BigEndian
  import opened FieldDescriptor
  import opened Message

  // ---------------------------------------------------------------------
  // Layout

  /**
   * From index `i` on, the descriptors lie back to back starting at byte
   * `from`, each at least one byte wide.
   */
  predicate Contiguous(fmt: seq<Param>, i: nat, from: nat)
    decreases |fmt| - i
  {
    i >= |fmt| || (fmt[i].begin == from && fmt[i].size > 0 && Contiguous(fmt, i + 1, from + fmt[i].size))
  }

  /** The first byte after the descriptors from index `i` on, laid out from `from`. */
  function End(fmt: seq<Param>, i: nat, from: nat): nat
    decreases |fmt| - i
  {
    if i >= |fmt| then from else End(fmt, i + 1, from + fmt[i].size)
  }

  /**
   * The ranges of the descriptors from index `i` on are pairwise disjoint and
   * cover [lo, hi) exactly. This is stronger than `Message.WithinLength` and
   * `Message.PairwiseDisjoint`, which `WellFormed` asks for: it also rules
   * out gaps. `TiledWellFormed` derives `WellFormed` from it.
   */
  predicate Tiles(fmt: seq<Param>, i: nat, lo: nat, hi: nat)
  {
    && (forall j :: i <= j < |fmt| ==> lo <= fmt[j].begin && fmt[j].begin + fmt[j].size <= hi && fmt[j].size > 0)
    && (forall a, b :: i <= a < b < |fmt| ==> Disjoint(fmt[a], fmt[b]))
    && (forall k :: lo <= k < hi ==> Covered(fmt, i, k))
  }

  /** Byte `k` lies in the range of some descriptor from index `i` on. */
  predicate Covered(fmt: seq<Param>, i: nat, k: int)
  {
    exists j :: i <= j < |fmt| && fmt[j].Covers(k)
  }

  /** Back-to-back descriptors tile the range they span. */
  lemma {:induction false} ContiguousTiles(fmt: seq<Param>, i: nat, from: nat)
    requires Contiguous(fmt, i, from)
    ensures from <= End(fmt, i, from)
    ensures Tiles(fmt, i, from, End(fmt, i, from))
    decreases |fmt| - i
  {
    if i < |fmt| {
      var mid := from + fmt[i].size;
      var hi := End(fmt, i, from);
      ContiguousTiles(fmt, i + 1, mid);
      forall k | from <= k < hi
        ensures Covered(fmt, i, k)
      {
        if k < mid {
          assert fmt[i].Covers(k);
        } else {
          assert Covered(fmt, i + 1, k);
          var j :| i + 1 <= j < |fmt| && fmt[j].Covers(k);
        }
      }
    }
  }

  /** The names of the descriptors from index `i` on. */
  function NameSet(fmt: seq<Param>, i: nat): set<string>
    decreases |fmt| - i
  {
    if i >= |fmt| then {} else {fmt[i].name} + NameSet(fmt, i + 1)
  }

  /**
   * No descriptor from index `i` on shares its name with a later one: the
   * form in which the names of a concrete table are checked, one name
   * against the set of later names. `DistinctUnique` turns it into
   * `Message.UniqueNames`, the pairwise form the generic lemmas use.
   */
  predicate Distinct(fmt: seq<Param>, i: nat)
    decreases |fmt| - i
  {
    i >= |fmt| || (fmt[i].name !in NameSet(fmt, i + 1) && Distinct(fmt, i + 1))
  }

  lemma {:induction false} NameSetHas(fmt: seq<Param>, i: nat, j: nat)
    requires i <= j < |fmt|
    ensures fmt[j].name in NameSet(fmt, i)
    decreases j - i
  {
    if i < j { NameSetHas(fmt, i + 1, j); }
  }

  /** The names of `fmt[:-1]` are names of `fmt`. */
  lemma BodyNames(fmt: seq<Param>)
    ensures forall n :: n in Names(Body(fmt)) ==> n in Names(fmt)
  {
    forall n | n in Names(Body(fmt))
      ensures n in Names(fmt)
    {
      var i :| 0 <= i < |Body(fmt)| && Names(Body(fmt))[i] == n;
      assert Names(fmt)[i] == n;
    }
  }

  /** The recursive check establishes that names are unique. */
  lemma {:induction false} DistinctUnique(fmt: seq<Param>, i: nat)
    requires Distinct(fmt, i)
    ensures forall a, b :: i <= a < b < |fmt| ==> fmt[a].name != fmt[b].name
    decreases |fmt| - i
  {
    if i < |fmt| {
      DistinctUnique(fmt, i + 1);
      forall b | i < b < |fmt|
        ensures fmt[i].name != fmt[b].name
      {
        NameSetHas(fmt, i + 1, b);
      }
    }
  }

  /**
   * A table whose descriptors tile [0, length) with distinct names and end
   * in a one-byte checksum field at `length - 1` is well formed.
   */
  lemma TiledWellFormed(s: Schema)
    requires |s.fmt| >= 1 && s.length >= 1
    requires Tiles(s.fmt, 0, 0, s.length) && Distinct(s.fmt, 0)
    requires s.fmt[|s.fmt| - 1].begin == s.length - 1 && s.fmt[|s.fmt| - 1].size == 1
    ensures WellFormed(s)
  {
    DistinctUnique(s.fmt, 0);
    var body, last := Body(s.fmt), s.fmt[|s.fmt| - 1];
    forall i | 0 <= i < |body|
      ensures body[i].begin + body[i].size <= s.length - 1
    {
      assert Disjoint(s.fmt[i], last);
    }
  }

  // ---------------------------------------------------------------------
  // D1: camera position and orientation

  const D1Length: nat := 29
  const D1Id: Byte := 0xD1

  const D1Fmt: seq<Param> := [
    Param("_id", 0, 1, None, false),
    Param("cam", 1, 1, None, false),
    Param("pan", 2, 3, Some(32768), true),
    Param("tilt", 5, 3, Some(32768), true),
    Param("roll", 8, 3, Some(32768), true),
    Param("posx", 11, 3, Some(64000), true),
    Param("posy", 14, 3, Some(64000), true),
    Param("posz", 17, 3, Some(64000), true),
    Param("zoom", 20, 3, None, false),
    Param("focus", 23, 3, None, false),
    Param("user", 26, 2, None, false),
    Param("_chk", 28, 1, None, false)
  ]

  const D1Schema: Schema := Schema(D1Length, D1Fmt)

  /** A D1 object: its dataclass fields. */
  datatype D1 = D1(
    cam: Value, pan: Value, tilt: Value, roll: Value,
    posx: Value, posy: Value, posz: Value,
    zoom: Value, focus: Value, user: Value)
  {
    /** What `getattr` sees: the fields and the class attribute `_id`. */
    function Attrs(): map<string, Value>
    {
      map[
        "_id" := Int(D1Id), "cam" := cam, "pan" := pan, "tilt" := tilt, "roll" := roll,
        "posx" := posx, "posy" := posy, "posz" := posz,
        "zoom" := zoom, "focus" := focus, "user" := user]
    }
  }

  /** `D1()`: the dataclass defaults. */
  function D1Default(): D1
  {
    D1(Int(255), Int(0), Int(0), Int(0), Int(0), Int(0), Int(0), Int(0), Int(0), Int(0))
  }

  /**
   * The D1 table: `_id` first, the checksum byte last at offset 28, the
   * ranges tiling [0, 29) exactly, and the schema well formed.
   */
  lemma D1Layout()
    ensures D1Fmt[0] == Param("_id", 0, 1, None, false)
    ensures D1Fmt[|D1Fmt| - 1] == Param("_chk", D1Length - 1, 1, None, false)
    ensures Tiles(D1Fmt, 0, 0, D1Length)
    ensures WellFormed(D1Schema)
  {
    assert Contiguous(D1Fmt, 0, 0) && End(D1Fmt, 0, 0) == D1Length;
    ContiguousTiles(D1Fmt, 0, 0);
    D1Distinct();
    TiledWellFormed(D1Schema);
  }

  lemma D1Distinct()
    ensures Distinct(D1Fmt, 0)
  {
    D1DistinctTail();
    assert Distinct(D1Fmt, 3);
  }

  lemma D1DistinctTail()
    ensures Distinct(D1Fmt, 6)
  {
    D1DistinctLast();
  }

  lemma D1DistinctLast()
    ensures Distinct(D1Fmt, 9)
  {
  }

  // ---------------------------------------------------------------------
  // DA: camera calibration

  const DALength: nat := 30
  const DAId: Byte := 0xDA

  const DAFmt: seq<Param> := [
    Param("_id", 0, 1, None, false),
    Param("cam", 1, 1, None, false),
    Param("shiftx", 2, 3, Some(256), true),
    Param("shifty", 5, 3, Some(256), true),
    Param("scalex", 8, 3, Some(256), true),
    Param("scaley", 11, 3, Some(256), true),
    Param("k1", 14, 3, Some(256), true),
    Param("k2", 17, 3, Some(256), true),
    Param("offsetx", 20, 3, Some(64000), true),
    Param("offsety", 23, 3, Some(64000), true),
    Param("offsetz", 26, 3, Some(64000), true),
    Param("_chk", 29, 1, None, false)
  ]

  const DASchema: Schema := Schema(DALength, DAFmt)

  /** A DA object: its dataclass fields. */
  datatype DA = DA(
    cam: Value, shiftx: Value, shifty: Value, scalex: Value, scaley: Value,
    k1: Value, k2: Value, offsetx: Value, offsety: Value, offsetz: Value)
  {
    /** What `getattr` sees: the fields and the class attribute `_id`. */
    function Attrs(): map<string, Value>
    {
      map[
        "_id" := Int(DAId), "cam" := cam, "shiftx" := shiftx, "shifty" := shifty,
        "scalex" := scalex, "scaley" := scaley, "k1" := k1, "k2" := k2,
        "offsetx" := offsetx, "offsety" := offsety, "offsetz" := offsetz]
    }
  }

  /** `DA()`: the dataclass defaults. */
  function DADefault(): DA
  {
    DA(Int(255), Int(0), Int(0), Int(1), Int(1), Int(0), Int(0), Int(0), Int(0), Int(0))
  }

  /**
   * The DA table: `_id` first, the checksum byte last at offset 29, the
   * ranges tiling [0, 30) exactly, and the schema well formed.
   */
  lemma DALayout()
    ensures DAFmt[0] == Param("_id", 0, 1, None, false)
    ensures DAFmt[|DAFmt| - 1] == Param("_chk", DALength - 1, 1, None, false)
    ensures Tiles(DAFmt, 0, 0, DALength)
    ensures WellFormed(DASchema)
  {
    assert Contiguous(DAFmt, 0, 0) && End(DAFmt, 0, 0) == DALength;
    ContiguousTiles(DAFmt, 0, 0);
    DADistinct();
    TiledWellFormed(DASchema);
  }

  lemma DADistinct()
    ensures Distinct(DAFmt, 0)
  {
    DADistinctTail();
    assert Distinct(DAFmt, 3);
  }

  lemma DADistinctTail()
    ensures Distinct(DAFmt, 6)
  {
    DADistinctLast();
  }

  lemma DADistinctLast()
    ensures Distinct(DAFmt, 9)
  {
  }

  // ---------------------------------------------------------------------
  // Encoding the concrete kinds

  /**
   * A D1 object's attributes, with `_id` found on the class, are exactly
   * the names of the descriptors `to_bytes` reads.
   */
  lemma D1Attrs(rec: D1)
    ensures "_id" in rec.Attrs() && rec.Attrs()["_id"] == Int(D1Id)
    ensures forall n :: n in rec.Attrs() <==> n in Names(Body(D1Fmt))
  {
    assert Names(Body(D1Fmt)) == ["_id", "cam", "pan", "tilt", "roll", "posx", "posy", "posz", "zoom", "focus", "user"];
  }

  /**
   * `D1.from_bytes(buf)`: starting from `D1()`, every descriptor of the
   * table sets its attribute to its decoded value, so the object's
   * attributes are exactly the table's names, `_id` and `_chk` included.
   */
  lemma D1FromBytes(buf: seq<Byte>)
    ensures var r := FromBytesSpec(D1Fmt, D1Default().Attrs(), buf);
      && (forall n :: n in r <==> n in Names(D1Fmt))
      && (forall i :: 0 <= i < |D1Fmt| ==> r[D1Fmt[i].name] == Decode(D1Fmt[i], D1Fmt[i].Parse(buf)))
  {
    D1DefaultNames();
    D1Unique();
    FromBytesSpecExact(D1Fmt, D1Default().Attrs(), buf);
  }

  lemma D1DefaultNames()
    ensures forall n :: n in D1Default().Attrs() ==> n in Names(D1Fmt)
  {
    D1Attrs(D1Default());
    BodyNames(D1Fmt);
  }

  lemma D1Unique()
    ensures UniqueNames(D1Fmt)
  {
    D1Distinct();
    DistinctUnique(D1Fmt, 0);
  }

  /** Every D1 object has the attributes `to_bytes` reads. */
  lemma D1HasAttrs(rec: D1)
    ensures HasAttrs(Body(D1Fmt), rec.Attrs())
  {
  }

  /** The bytes a D1 message holds in the slice of its field `i`. */
  lemma D1Slice(rec: D1, i: nat)
    requires i < |D1Fmt| - 1
    ensures var p := D1Fmt[i];
      Encode(D1Schema, rec.Attrs())[p.begin..p.begin + p.size] == FieldBytes(p, rec.Attrs()[p.name], Zeros(p.size))
  {
    D1Layout();
    D1HasAttrs(rec);
    EncodeField(D1Schema, rec.Attrs(), i);
  }

  /** A byte value encodes to itself on one unsigned byte. */
  lemma OneByte(b: Byte)
    ensures BigEndian.ToBytes(b, 1, false) == Some([b])
  {
    BigEndian.ToFromBytes([b], false);
    assert [b][1..] == [];
  }

  /**
   * Every D1 object built by the dataclass constructor, whose `_id` is the
   * class attribute, encodes with its type tag 0xD1 first.
   */
  lemma D1TagFirst(rec: D1)
    ensures Encode(D1Schema, rec.Attrs())[0] == D1Id
  {
    D1Slice(rec, 0);
    OneByte(D1Id);
  }

  /**
   * An object `D1.from_bytes` returns carries the parsed `_id` as its own
   * attribute, which hides the class's 0xD1; encoding it again writes the
   * parsed byte, so a buffer whose first byte is not 0xD1 does not come back
   * with the tag. An empty buffer parses `_id` as 0.
   */
  lemma D1DecodedTag(buf: seq<Byte>)
    ensures var obj := FromBytesSpec(D1Fmt, D1Default().Attrs(), buf);
      HasAttrs(Body(D1Fmt), obj) && Encode(D1Schema, obj)[0] == if |buf| == 0 then 0 else buf[0]
  {
    D1DecodedId(buf);
    D1DecodedHasAttrs(buf);
    D1TagOf(FromBytesSpec(D1Fmt, D1Default().Attrs(), buf), if |buf| == 0 then 0 else buf[0]);
  }

  /** Any object with the attributes `to_bytes` reads encodes its own `_id` byte first. */
  lemma D1TagOf(obj: map<string, Value>, b: Byte)
    requires HasAttrs(Body(D1Fmt), obj)
    requires "_id" in obj && obj["_id"] == Int(b)
    ensures Encode(D1Schema, obj)[0] == b
  {
    D1Layout();
    EncodeField(D1Schema, obj, 0);
    OneByte(b);
  }

  /** The decoded object's `_id` is the buffer's first byte (0 for an empty buffer). */
  lemma D1DecodedId(buf: seq<Byte>)
    ensures var obj := FromBytesSpec(D1Fmt, D1Default().Attrs(), buf);
      "_id" in obj && obj["_id"] == Int(if |buf| == 0 then 0 else buf[0])
  {
    D1FromBytes(buf);
    D1Unique();
    FromBytesSpecField(D1Fmt, D1Default().Attrs(), buf, 0);
    FirstByte(D1Fmt[0], buf);
  }

  /** A one-byte unsigned field at offset 0 reads the first byte, or 0 from an empty buffer. */
  lemma FirstByte(p: Param, buf: seq<Byte>)
    requires p.begin == 0 && p.size == 1 && !p.signed
    ensures p.Parse(buf) == if |buf| == 0 then 0 else buf[0]
  {
    if |buf| > 0 {
      assert buf[0..1] == [buf[0]];
      BigEndian.ToFromBytes([buf[0]], false);
      OneByte(buf[0]);
    }
  }

  /** The decoded object has every attribute `to_bytes` reads. */
  lemma D1DecodedHasAttrs(buf: seq<Byte>)
    ensures HasAttrs(Body(D1Fmt), FromBytesSpec(D1Fmt, D1Default().Attrs(), buf))
  {
    var obj := FromBytesSpec(D1Fmt, D1Default().Attrs(), buf);
    FromBytesSpecKeys(D1Fmt, D1Default().Attrs(), buf);
    forall i | 0 <= i < |Body(D1Fmt)|
      ensures Body(D1Fmt)[i].name in obj
    {
      assert Names(D1Fmt)[i] == D1Fmt[i].name;
    }
  }


  /** A camera id that fits one byte is written as that byte at offset 1. */
  lemma D1CameraByte(rec: D1, cam: Byte)
    ensures Encode(D1Schema, rec.(cam := Int(cam)).Attrs())[1] == cam
  {
    D1Slice(rec.(cam := Int(cam)), 1);
    OneByte(cam);
  }

  /** A pan of 0.5 degrees is 0.5 * 32768 = 16384 = 0x004000 at offsets 2..4. */
  lemma D1HalfDegreePan(rec: D1)
    ensures Encode(D1Schema, rec.(pan := Real(0.5)).Attrs())[2..5] == [0x00, 0x40, 0x00]
  {
    D1Slice(rec.(pan := Real(0.5)), 2);
    assert RawOf(D1Fmt[2], Real(0.5)) == 16384;
    var bs: seq<Byte> := [0x00, 0x40, 0x00];
    assert bs[1..][1..] == [0x00] && bs[1..][1..][1..] == [];
    BigEndian.ToFromBytes(bs, true);
  }

  /**
   * A DA object's attributes, with `_id` found on the class, are exactly
   * the names of the descriptors `to_bytes` reads.
   */
  lemma DAAttrs(rec: DA)
    ensures "_id" in rec.Attrs() && rec.Attrs()["_id"] == Int(DAId)
    ensures forall n :: n in rec.Attrs() <==> n in Names(Body(DAFmt))
  {
    assert Names(Body(DAFmt)) == ["_id", "cam", "shiftx", "shifty", "scalex", "scaley", "k1", "k2", "offsetx", "offsety", "offsetz"];
  }

  /**
   * `DA.from_bytes(buf)`: starting from `DA()`, every descriptor of the
   * table sets its attribute to its decoded value, so the object's
   * attributes are exactly the table's names, `_id` and `_chk` included.
   */
  lemma DAFromBytes(buf: seq<Byte>)
    ensures var r := FromBytesSpec(DAFmt, DADefault().Attrs(), buf);
      && (forall n :: n in r <==> n in Names(DAFmt))
      && (forall i :: 0 <= i < |DAFmt| ==> r[DAFmt[i].name] == Decode(DAFmt[i], DAFmt[i].Parse(buf)))
  {
    DADefaultNames();
    DAUnique();
    FromBytesSpecExact(DAFmt, DADefault().Attrs(), buf);
  }

  lemma DADefaultNames()
    ensures forall n :: n in DADefault().Attrs() ==> n in Names(DAFmt)
  {
    DAAttrs(DADefault());
    BodyNames(DAFmt);
  }

  lemma DAUnique()
    ensures UniqueNames(DAFmt)
  {
    DADistinct();
    DistinctUnique(DAFmt, 0);
  }

  /** Every DA object has the attributes `to_bytes` reads. */
  lemma DAHasAttrs(rec: DA)
    ensures HasAttrs(Body(DAFmt), rec.Attrs())
  {
  }

  /**
   * Every DA object built by the dataclass constructor, whose `_id` is the
   * class attribute, encodes with its type tag 0xDA first.
   */
  lemma DATagFirst(rec: DA)
    ensures Encode(DASchema, rec.Attrs())[0] == DAId
  {
    DALayout();
    DAHasAttrs(rec);
    EncodeField(DASchema, rec.Attrs(), 0);
    OneByte(DAId);
  }

  /**
   * Encoding the pose {cam: 1, pan: 0.5, everything else 0}: tag 0xD1,
   * camera 1, pan 0x004000 on three bytes, and the checksum last so that
   * all 29 bytes sum to 0x40 modulo 256.
   */
  lemma PoseExample()
    ensures var r := Encode(D1Schema, D1(Int(1), Real(0.5), Int(0), Int(0), Int(0), Int(0), Int(0), Int(0), Int(0), Int(0)).Attrs());
      && |r| == 29
      && r[0] == 0xD1 && r[1] == 0x01 && r[2..5] == [0x00, 0x40, 0x00]
      && r[28] == Checksum(r[..28])
      && Sum(r) % 256 == 0x40
  {
    var base := D1(Int(0), Int(0), Int(0), Int(0), Int(0), Int(0), Int(0), Int(0), Int(0), Int(0));
    var rec := base.(cam := Int(1)).(pan := Real(0.5));
    D1TagFirst(rec);
    D1CameraByte(base.(pan := Real(0.5)), 1);
    assert base.(pan := Real(0.5)).(cam := Int(1)) == rec;
    D1HalfDegreePan(base.(cam := Int(1)));
    D1Layout();
    D1HasAttrs(rec);
    WellFormedEncodable(D1Schema, rec.Attrs());
    EncodeChecksum(D1Schema, rec.Attrs());
  }

  /**
   * `int()` after scaling truncates toward zero on both signs:
   * 1.9999 * 32768 = 65532.7232 becomes 65532, and -1.9999 becomes -65532.
   */
  lemma PanTruncatesTowardZero()
    ensures RawOf(D1Fmt[2], Real(1.9999)) == 65532
    ensures RawOf(D1Fmt[2], Real(-1.9999)) == -65532
  {
  }

  /**
   * A zoom above 16,777,215 does not fit three unsigned bytes: the zoom
   * bytes come out zero, every other byte before the checksum is what it
   * would have been, and the call still produces a message.
   */
  lemma ZoomOverflow(rec: D1, zoom: int)
    requires zoom > 16777215
    ensures var a, b := Encode(D1Schema, rec.Attrs()), Encode(D1Schema, rec.(zoom := Int(zoom)).Attrs());
      && b[20..23] == [0, 0, 0]
      && (forall k :: 0 <= k < 28 && !(20 <= k < 23) ==> a[k] == b[k])
  {
    D1Layout();
    D1HasAttrs(rec);
    D1WithZoom(rec, Int(zoom));
    assert D1Fmt[8] == Param("zoom", 20, 3, None, false);
    OverflowZeroesOnlyItsField(D1Schema, rec.Attrs(), 8, Int(zoom));
  }

  lemma D1WithZoom(rec: D1, v: Value)
    ensures rec.(zoom := v).Attrs() == rec.Attrs()["zoom" := v]
  {
  }
}
