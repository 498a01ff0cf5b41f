/**
 * The generic codec `Message` (FreeD.py:25-61): checksum, raw parse into
 * a dict, typed decode into an object, and encode into a checksummed
 * buffer. A message kind is given by its `Schema` (the class attributes
 * `length` and `fmt`); a message object by the map of its attributes.
 */
module Message {
  import opened Wrappers
  import opened BigEndian
  import opened FieldDescriptor
  import opened Dicts

  /** The class attributes of a message kind: its byte length and its descriptor list. */
  datatype Schema = Schema(length: nat, fmt: seq<Param>)

  /**
   * The value of a message attribute: a Python int, or a Python float,
   * idealised here as a real number.
   */
  datatype Value = Int(i: int) | Real(r: real)

  /** The number a value denotes. */
  function Number(v: Value): real
  {
    match v
    case Int(i) => i as real
    case Real(x) => x
  }

  // ---------------------------------------------------------------------
  // Schema shape

  /** The descriptor names, in `fmt` order. */
  function Names(fmt: seq<Param>): (ns: seq<string>)
    ensures |ns| == |fmt|
    ensures forall i :: 0 <= i < |fmt| ==> ns[i] == fmt[i].name
  {
    seq(|fmt|, i requires 0 <= i < |fmt| => fmt[i].name)
  }

  predicate UniqueNames(fmt: seq<Param>)
  {
    forall i, j :: 0 <= i < j < |fmt| ==> fmt[i].name != fmt[j].name
  }

  predicate PairwiseDisjoint(fields: seq<Param>)
  {
    forall i, j {:trigger Disjoint(fields[i], fields[j])} :: 0 <= i < j < |fields| ==> Disjoint(fields[i], fields[j])
  }

  /** Every field's slice ends within the first `n` bytes. */
  predicate WithinLength(fields: seq<Param>, n: nat)
  {
    forall i :: 0 <= i < |fields| ==> fields[i].begin + fields[i].size <= n
  }

  /** `fmt[:-1]`: every descriptor but the trailing checksum one. */
  function Body(fmt: seq<Param>): (b: seq<Param>)
    ensures |b| == if fmt == [] then 0 else |fmt| - 1
    ensures forall i :: 0 <= i < |b| ==> b[i] == fmt[i]
  {
    if fmt == [] then [] else fmt[..|fmt| - 1]
  }

  /**
   * What the codec relies on the schema author for: a checksum byte at the
   * end, distinct names, and data fields that stay clear of one another and
   * of the checksum byte.
   */
  predicate WellFormed(s: Schema)
  {
    && s.length >= 1
    && |s.fmt| >= 1
    && UniqueNames(s.fmt)
    && WithinLength(Body(s.fmt), s.length - 1)
    && PairwiseDisjoint(Body(s.fmt))
  }

  // ---------------------------------------------------------------------
  // checksum

  /** Python's `sum` over bytes. */
  function Sum(s: seq<Byte>): (r: nat)
    ensures r <= 255 * |s|
    ensures s == [] ==> r == 0
  {
    if s == [] then 0 else s[0] + Sum(s[1..])
  }

  /**
   * `checksum`: `0x40 - sum(buf) & 0xFF`, parsed as `(0x40 - sum(buf)) & 0xFF`.
   * On Python's unbounded two's-complement integers `& 0xFF` is the
   * non-negative remainder modulo 256, which is Dafny's `%` here.
   * The byte it yields is the one that brings the byte sum to 0x40 mod 256.
   */
  function Checksum(buf: seq<Byte>): (r: Byte)
    ensures (Sum(buf) + r) % 256 == 0x40
  {
    (0x40 - Sum(buf)) % 256
  }

  lemma {:induction false} SumAppend(a: seq<Byte>, b: seq<Byte>)
    ensures Sum(a + b) == Sum(a) + Sum(b)
  {
    if a != [] {
      assert (a + b)[0] == a[0];
      assert (a + b)[1..] == a[1..] + b;
      SumAppend(a[1..], b);
    } else {
      assert a + b == b;
    }
  }

  // ---------------------------------------------------------------------
  // parse: descriptor name -> raw integer

  /** The dict `parse` builds: one assignment per descriptor, in `fmt` order. */
  function ParseSpec(fmt: seq<Param>, buf: seq<Byte>): Dict<int>
  {
    if fmt == [] then []
    else
      var p := fmt[|fmt| - 1];
      Put(ParseSpec(fmt[..|fmt| - 1], buf), p.name, p.Parse(buf))
  }

  /**
   * Whatever the names, the dict `parse` builds has exactly the descriptor
   * names as keys, and at most one entry per descriptor.
   */
  lemma {:induction false} ParseSpecKeys(fmt: seq<Param>, buf: seq<Byte>)
    ensures |ParseSpec(fmt, buf)| <= |fmt|
    ensures forall n :: n in Keys(ParseSpec(fmt, buf)) <==> n in Names(fmt)
  {
    if fmt != [] {
      var init, p := fmt[..|fmt| - 1], fmt[|fmt| - 1];
      ParseSpecKeys(init, buf);
      assert Names(fmt) == Names(init) + [p.name];
    }
  }

  /** Whatever the names, the dict `parse` builds has distinct keys. */
  lemma {:induction false} ParseSpecDistinct(fmt: seq<Param>, buf: seq<Byte>)
    ensures DistinctKeys(ParseSpec(fmt, buf))
  {
    if fmt != [] {
      var init, p := fmt[..|fmt| - 1], fmt[|fmt| - 1];
      ParseSpecDistinct(init, buf);
      PutDistinct(ParseSpec(init, buf), p.name, p.Parse(buf));
    }
  }

  /** One `(name, raw value)` entry per descriptor, in `fmt` order. */
  function Entries(fmt: seq<Param>, buf: seq<Byte>): (d: Dict<int>)
    ensures |d| == |fmt| && Keys(d) == Names(fmt)
  {
    seq(|fmt|, i requires 0 <= i < |fmt| => (fmt[i].name, fmt[i].Parse(buf)))
  }

  /**
   * With distinct names the dict has exactly one entry per descriptor, in
   * `fmt` order, holding that descriptor's raw value. Nothing is checked:
   * the `_id` and `_chk` entries are whatever the bytes say.
   */
  lemma {:induction false} ParseSpecEntries(fmt: seq<Param>, buf: seq<Byte>)
    requires UniqueNames(fmt)
    ensures ParseSpec(fmt, buf) == Entries(fmt, buf)
  {
    if fmt != [] {
      var init, p := fmt[..|fmt| - 1], fmt[|fmt| - 1];
      assert UniqueNames(init);
      ParseSpecEntries(init, buf);
      var d := Entries(init, buf);
      assert p.name !in Keys(d);
      assert Entries(fmt, buf) == d + [(p.name, p.Parse(buf))];
    }
  }

  /** `Message.parse`: fills a dict field by field. */
  method Parse(s: Schema, msg: seq<Byte>) returns (result: Dict<int>)
    ensures result == ParseSpec(s.fmt, msg)
    ensures UniqueNames(s.fmt) ==> result == Entries(s.fmt, msg)
  {
    result := [];
    var i := 0;
    while i < |s.fmt|
      invariant 0 <= i <= |s.fmt|
      invariant result == ParseSpec(s.fmt[..i], msg)
    {
      var param := s.fmt[i];
      assert s.fmt[..i + 1][..i] == s.fmt[..i];
      result := Put(result, param.name, param.Parse(msg));
      i := i + 1;
    }
    assert s.fmt[..i] == s.fmt;
    if UniqueNames(s.fmt) {
      ParseSpecEntries(s.fmt, msg);
    }
  }

  // ---------------------------------------------------------------------
  // from_bytes: raw integers scaled into attribute values

  /** `value /= param.mult` on a scaled field (Python true division); the raw int otherwise. */
  function Decode(p: Param, raw: int): Value
  {
    if p.Scaled() then Real(raw as real / p.mult.value as real) else Int(raw)
  }

  /**
   * An unscaled field decodes to its raw int; a scaled one to a float that,
   * multiplied back by `mult`, is the raw value.
   */
  lemma DecodeInverts(p: Param, raw: int)
    ensures !p.Scaled() ==> Decode(p, raw) == Int(raw)
    ensures p.Scaled() ==> Decode(p, raw).Real? && Decode(p, raw).r * p.mult.value as real == raw as real
  {
  }

  /**
   * The attributes of the object `from_bytes` returns: those of the freshly
   * constructed `cls()` (`defaults`), each descriptor then set in `fmt` order.
   */
  function FromBytesSpec(fmt: seq<Param>, defaults: map<string, Value>, buf: seq<Byte>): map<string, Value>
  {
    if fmt == [] then defaults
    else
      var p := fmt[|fmt| - 1];
      FromBytesSpec(fmt[..|fmt| - 1], defaults, buf)[p.name := Decode(p, p.Parse(buf))]
  }

  /** The decoded object has the default attributes and one attribute per descriptor name, and no others. */
  lemma {:induction false} FromBytesSpecKeys(fmt: seq<Param>, defaults: map<string, Value>, buf: seq<Byte>)
    ensures forall n :: n in FromBytesSpec(fmt, defaults, buf) <==> n in defaults || n in Names(fmt)
  {
    if fmt != [] {
      var init, p := fmt[..|fmt| - 1], fmt[|fmt| - 1];
      FromBytesSpecKeys(init, defaults, buf);
      assert Names(fmt) == Names(init) + [p.name];
    }
  }

  /**
   * A descriptor's attribute holds its decoded raw value; when names repeat,
   * the last descriptor of a name wins.
   */
  lemma {:induction false} FromBytesSpecField(fmt: seq<Param>, defaults: map<string, Value>, buf: seq<Byte>, i: nat)
    requires i < |fmt|
    requires forall j :: i < j < |fmt| ==> fmt[j].name != fmt[i].name
    ensures var r := FromBytesSpec(fmt, defaults, buf);
      fmt[i].name in r && r[fmt[i].name] == Decode(fmt[i], fmt[i].Parse(buf))
  {
    if i < |fmt| - 1 {
      var init := fmt[..|fmt| - 1];
      FromBytesSpecField(init, defaults, buf, i);
    }
  }

  /** Attributes that no descriptor names keep the value the fresh object had. */
  lemma {:induction false} FromBytesSpecDefaults(fmt: seq<Param>, defaults: map<string, Value>, buf: seq<Byte>, n: string)
    requires n in defaults && n !in Names(fmt)
    ensures var r := FromBytesSpec(fmt, defaults, buf); n in r && r[n] == defaults[n]
  {
    if fmt != [] {
      var init := fmt[..|fmt| - 1];
      assert Names(fmt) == Names(init) + [fmt[|fmt| - 1].name];
      FromBytesSpecDefaults(init, defaults, buf, n);
    }
  }

  /**
   * When the fresh object's attributes are all descriptor names and the
   * names are distinct, the decoded object has exactly the descriptor
   * names as attributes, each holding its decoded raw value.
   */
  lemma FromBytesSpecExact(fmt: seq<Param>, defaults: map<string, Value>, buf: seq<Byte>)
    requires forall n :: n in defaults ==> n in Names(fmt)
    requires UniqueNames(fmt)
    ensures var r := FromBytesSpec(fmt, defaults, buf);
      && (forall n :: n in r <==> n in Names(fmt))
      && (forall i :: 0 <= i < |fmt| ==> r[fmt[i].name] == Decode(fmt[i], fmt[i].Parse(buf)))
  {
    FromBytesSpecKeys(fmt, defaults, buf);
    FromBytesSpecUnique(fmt, defaults, buf);
  }

  /** With distinct names every descriptor's attribute holds its decoded raw value. */
  lemma FromBytesSpecUnique(fmt: seq<Param>, defaults: map<string, Value>, buf: seq<Byte>)
    requires UniqueNames(fmt)
    ensures var r := FromBytesSpec(fmt, defaults, buf);
      forall i :: 0 <= i < |fmt| ==> fmt[i].name in r && r[fmt[i].name] == Decode(fmt[i], fmt[i].Parse(buf))
  {
    forall i | 0 <= i < |fmt|
      ensures var r := FromBytesSpec(fmt, defaults, buf);
        fmt[i].name in r && r[fmt[i].name] == Decode(fmt[i], fmt[i].Parse(buf))
    {
      FromBytesSpecField(fmt, defaults, buf, i);
    }
  }

  /** `Message.from_bytes`: sets one attribute per descriptor on a fresh object. */
  method FromBytes(s: Schema, defaults: map<string, Value>, buf: seq<Byte>) returns (obj: map<string, Value>)
    ensures obj == FromBytesSpec(s.fmt, defaults, buf)
    ensures UniqueNames(s.fmt) ==> forall i :: 0 <= i < |s.fmt| ==>
      s.fmt[i].name in obj && obj[s.fmt[i].name] == Decode(s.fmt[i], s.fmt[i].Parse(buf))
  {
    obj := defaults;
    var i := 0;
    while i < |s.fmt|
      invariant 0 <= i <= |s.fmt|
      invariant obj == FromBytesSpec(s.fmt[..i], defaults, buf)
    {
      var param := s.fmt[i];
      var value := param.Parse(buf);
      assert s.fmt[..i + 1][..i] == s.fmt[..i];
      assert FromBytesSpec(s.fmt[..i + 1], defaults, buf) == obj[param.name := Decode(param, value)];
      obj := obj[param.name := Decode(param, value)];
      i := i + 1;
    }
    assert s.fmt[..i] == s.fmt;
    if UniqueNames(s.fmt) {
      FromBytesSpecUnique(s.fmt, defaults, buf);
    }
  }

  // ---------------------------------------------------------------------
  // to_bytes: attribute values into a checksummed buffer

  /** `value *= param.mult`: int times int stays an int, a float stays a float. */
  function Scale(v: Value, m: int): (r: Value)
    ensures r.Int? <==> v.Int?
    ensures Number(r) == Number(v) * m as real
  {
    match v
    case Int(i) => Int(i * m)
    case Real(x) => Real(x * m as real)
  }

  /** Truncation toward zero, what Python's `int(x)` does to a float. */
  function Trunc(x: real): (t: int)
    ensures 0.0 <= x ==> t as real <= x < t as real + 1.0
    ensures x < 0.0 ==> t as real - 1.0 < x <= t as real
  {
    if x >= 0.0 then x.Floor else -((-x).Floor)
  }

  /** Python's `int(value)`. */
  function ToInt(v: Value): (r: int)
    ensures v.Int? ==> r == v.i
    ensures 0.0 <= Number(v) ==> r as real <= Number(v) < r as real + 1.0
    ensures Number(v) < 0.0 ==> r as real - 1.0 < Number(v) <= r as real
  {
    match v
    case Int(i) => i
    case Real(x) => Trunc(x)
  }

  /** The integer `to_bytes` writes for a field holding `v`. */
  function RawOf(p: Param, v: Value): int
  {
    ToInt(if p.Scaled() then Scale(v, p.mult.value) else v)
  }

  /**
   * The integer written for a field is its value, times `mult` on a scaled
   * field, truncated toward zero; an int times an int multiplier is exact.
   */
  lemma RawOfTruncates(p: Param, v: Value)
    ensures var x := if p.Scaled() then Number(v) * p.mult.value as real else Number(v);
      && (0.0 <= x ==> RawOf(p, v) as real <= x < RawOf(p, v) as real + 1.0)
      && (x < 0.0 ==> RawOf(p, v) as real - 1.0 < x <= RawOf(p, v) as real)
    ensures v.Int? ==> RawOf(p, v) == if p.Scaled() then v.i * p.mult.value else v.i
  {
    if p.Scaled() {
      var w := Scale(v, p.mult.value);
      assert Number(w) == Number(v) * p.mult.value as real;
    }
  }

  /**
   * `if param.mult:` is false for a zero multiplier as for a missing one: a
   * field with `mult=0` decodes and encodes exactly like one without `mult`.
   */
  lemma ZeroMultUnscaled(p: Param, raw: int, v: Value)
    requires p.mult == Some(0)
    ensures Decode(p, raw) == Decode(p.(mult := None), raw) == Int(raw)
    ensures RawOf(p, v) == RawOf(p.(mult := None), v) == ToInt(v)
  {
  }

  /**
   * `int(value).to_bytes(param.size, 'big', signed=param.signed)` for a
   * field holding `v`: its bytes, or None where OverflowError is raised.
   */
  function FieldEncoding(p: Param, v: Value): (r: Option<seq<Byte>>)
    ensures r.Some? <==> Fits(RawOf(p, v), p.size, p.signed)
    ensures r.Some? ==> |r.value| == p.size && BigEndian.FromBytes(r.value, p.signed) == RawOf(p, v)
  {
    var r := BigEndian.ToBytes(RawOf(p, v), p.size, p.signed);
    if r.Some? then FromToBytes(RawOf(p, v), p.size, p.signed); r else r
  }

  /** What a slice holds after a write of `enc`: the bytes written, or `prior` when nothing was. */
  function Written(enc: Option<seq<Byte>>, prior: seq<Byte>): seq<Byte>
  {
    match enc
    case Some(bs) => bs
    case None => prior
  }

  /** What a field's slice holds after its write: its bytes, or `prior` when `to_bytes` overflows. */
  function FieldBytes(p: Param, v: Value, prior: seq<Byte>): seq<Byte>
  {
    Written(FieldEncoding(p, v), prior)
  }

  /** An encoding that, when present, has the width of field `p`. */
  predicate SizedFor(p: Param, enc: Option<seq<Byte>>)
  {
    enc.Some? ==> |enc.value| == p.size
  }

  /** One encoding per field, each of its field's width. */
  predicate Sized(fields: seq<Param>, encs: seq<Option<seq<Byte>>>)
  {
    |encs| == |fields| && forall i {:trigger SizedFor(fields[i], encs[i])} :: 0 <= i < |fields| ==> SizedFor(fields[i], encs[i])
  }

  /**
   * One iteration of the `to_bytes` loop: assign the field's bytes to its
   * slice, or, when `int.to_bytes` raised OverflowError (suppressed), leave
   * the buffer as it is.
   */
  function Place(buf: seq<Byte>, p: Param, enc: Option<seq<Byte>>): (r: seq<Byte>)
    requires p.begin + p.size <= |buf| && SizedFor(p, enc)
    ensures |r| == |buf|
  {
    match enc
    case None => buf
    case Some(bs) => p.Assign(buf, bs)
  }

  /** Every field's name is an attribute of the object (`getattr` does not fail). */
  predicate HasAttrs(fields: seq<Param>, obj: map<string, Value>)
  {
    forall i :: 0 <= i < |fields| ==> fields[i].name in obj
  }

  /** The encodings the loop computes, one per field, in order. */
  function Encodings(fields: seq<Param>, obj: map<string, Value>): (encs: seq<Option<seq<Byte>>>)
    requires HasAttrs(fields, obj)
    ensures Sized(fields, encs)
    ensures forall i :: 0 <= i < |fields| ==> encs[i] == FieldEncoding(fields[i], obj[fields[i].name])
  {
    seq(|fields|, i requires 0 <= i < |fields| => FieldEncoding(fields[i], obj[fields[i].name]))
  }

  /** The buffer after the loop has placed the first `n` fields in order, starting from `buf`. */
  function Fill(buf: seq<Byte>, fields: seq<Param>, encs: seq<Option<seq<Byte>>>, n: nat): (r: seq<Byte>)
    requires WithinLength(fields, |buf|) && Sized(fields, encs) && n <= |fields|
    ensures |r| == |buf|
  {
    if n == 0 then buf
    else Place(Fill(buf, fields, encs, n - 1), fields[n - 1], encs[n - 1])
  }

  /** `bytearray(n)`. */
  function Zeros(n: nat): (z: seq<Byte>)
    ensures |z| == n && forall k :: 0 <= k < n ==> z[k] == 0
  {
    seq(n, _ => 0)
  }

  /**
   * What `to_bytes` needs: a last byte to hold the checksum (`result[-1]`
   * fails on an empty buffer), slices inside the buffer (a slice assignment
   * past the end would grow the bytearray), and every written attribute.
   */
  predicate Encodable(s: Schema, obj: map<string, Value>)
  {
    s.length >= 1 && WithinLength(Body(s.fmt), s.length) && HasAttrs(Body(s.fmt), obj)
  }

  /** The buffer the loop of `to_bytes` fills, before the checksum is written. */
  function Filled(s: Schema, obj: map<string, Value>): (r: seq<Byte>)
    requires Encodable(s, obj)
    ensures |r| == s.length
  {
    var body := Body(s.fmt);
    Fill(Zeros(s.length), body, Encodings(body, obj), |body|)
  }

  /** The bytes `to_bytes` returns. */
  function Encode(s: Schema, obj: map<string, Value>): (r: seq<Byte>)
    requires Encodable(s, obj)
    ensures |r| == s.length
  {
    var head := Filled(s, obj)[..s.length - 1];
    head + [Checksum(head)]
  }

  /** `buf[lo:lo + len(bs)] = bs` on a bytearray, byte by byte. */
  method AssignSlice(a: array<Byte>, lo: nat, bs: seq<Byte>)
    requires lo + |bs| <= a.Length
    modifies a
    ensures a[..] == old(a[..])[..lo] + bs + old(a[..])[lo + |bs|..]
  {
    var k := 0;
    while k < |bs|
      invariant 0 <= k <= |bs|
      invariant forall j :: 0 <= j < a.Length ==> a[j] == if lo <= j < lo + k then bs[j - lo] else old(a[j])
    {
      a[lo + k] := bs[k];
      k := k + 1;
    }
    assert a[..] == old(a[..])[..lo] + bs + old(a[..])[lo + |bs|..];
  }

  /**
   * The body of the `to_bytes` loop for one descriptor: scale, convert with
   * `int()`, and assign the bytes to the field's slice unless `to_bytes`
   * overflows.
   */
  method WriteField(result: array<Byte>, param: Param, attr: Value)
    requires param.begin + param.size <= result.Length
    modifies result
    ensures result[..] == Place(old(result[..]), param, FieldEncoding(param, attr))
  {
    var value := attr;
    if param.Scaled() {
      value := Scale(value, param.mult.value);
    }
    var encoded := BigEndian.ToBytes(ToInt(value), param.size, param.signed);
    if encoded.Some? {
      AssignSlice(result, param.begin, encoded.value);
    }
  }

  /** The loop of `to_bytes`: each field of `fields` written in turn. */
  method WriteFields(result: array<Byte>, fields: seq<Param>, obj: map<string, Value>)
    requires WithinLength(fields, result.Length) && HasAttrs(fields, obj)
    modifies result
    ensures result[..] == Fill(old(result[..]), fields, Encodings(fields, obj), |fields|)
  {
    ghost var start, encs := result[..], Encodings(fields, obj);
    var i := 0;
    while i < |fields|
      invariant 0 <= i <= |fields|
      invariant result[..] == Fill(start, fields, encs, i)
    {
      WriteField(result, fields[i], obj[fields[i].name]);
      i := i + 1;
    }
  }

  /** `Message.to_bytes`. */
  method ToBytes(s: Schema, obj: map<string, Value>) returns (out: seq<Byte>)
    requires Encodable(s, obj)
    ensures out == Encode(s, obj)
  {
    var result := new Byte[s.length](_ => 0);
    assert result[..] == Zeros(s.length);
    WriteFields(result, Body(s.fmt), obj);
    result[s.length - 1] := Checksum(result[..s.length - 1]);
    out := result[..];
  }

  // ---------------------------------------------------------------------
  // Properties of the encoder

  /** Bytes no placed field covers keep their initial value. */
  lemma {:induction false} FillOutside(buf: seq<Byte>, fields: seq<Param>, encs: seq<Option<seq<Byte>>>, n: nat, k: nat)
    requires WithinLength(fields, |buf|) && Sized(fields, encs) && n <= |fields|
    requires k < |buf|
    requires forall i :: 0 <= i < n ==> !fields[i].Covers(k)
    ensures Fill(buf, fields, encs, n)[k] == buf[k]
  {
    if n > 0 {
      FillOutside(buf, fields, encs, n - 1, k);
      PlaceOutside(Fill(buf, fields, encs, n - 1), fields[n - 1], encs[n - 1], k);
    }
  }

  /** Placing fields that all keep clear of `q` leaves `q`'s slice as it was. */
  lemma {:induction false} FillClear(buf: seq<Byte>, fields: seq<Param>, encs: seq<Option<seq<Byte>>>, n: nat, q: Param)
    requires WithinLength(fields, |buf|) && Sized(fields, encs) && n <= |fields|
    requires q.begin + q.size <= |buf|
    requires forall j :: 0 <= j < n ==> Disjoint(fields[j], q)
    ensures Fill(buf, fields, encs, n)[q.begin..q.begin + q.size] == buf[q.begin..q.begin + q.size]
  {
    if n > 0 {
      FillClear(buf, fields, encs, n - 1, q);
      assert Disjoint(fields[n - 1], q);
      PlaceKeeps(Fill(buf, fields, encs, n - 1), fields[n - 1], encs[n - 1], q, buf[q.begin..q.begin + q.size]);
    }
  }

  /** Placing a field changes no byte outside its slice. */
  lemma PlaceOutside(buf: seq<Byte>, p: Param, enc: Option<seq<Byte>>, k: nat)
    requires p.begin + p.size <= |buf| && SizedFor(p, enc)
    requires k < |buf| && !p.Covers(k)
    ensures Place(buf, p, enc)[k] == buf[k]
  {
  }

  /** Placing a field leaves whatever the slice of a field disjoint from it held. */
  lemma PlaceKeeps(before: seq<Byte>, p: Param, enc: Option<seq<Byte>>, q: Param, held: seq<Byte>)
    requires p.begin + p.size <= |before| && SizedFor(p, enc) && q.begin + q.size <= |before|
    requires Disjoint(p, q)
    requires before[q.begin..q.begin + q.size] == held
    ensures Place(before, p, enc)[q.begin..q.begin + q.size] == held
  {
    var after := Place(before, p, enc);
    forall k | q.begin <= k < q.begin + q.size
      ensures after[k] == before[k]
    {
      PlaceOutside(before, p, enc, k);
    }
  }

  /** Placing a field over a slice that held `prior` leaves the bytes written, or `prior`. */
  lemma PlaceOver(before: seq<Byte>, p: Param, enc: Option<seq<Byte>>, prior: seq<Byte>)
    requires p.begin + p.size <= |before| && SizedFor(p, enc)
    requires before[p.begin..p.begin + p.size] == prior
    ensures Place(before, p, enc)[p.begin..p.begin + p.size] == Written(enc, prior)
  {
  }

  /**
   * With non-overlapping fields, each placed field's slice ends up holding
   * that field's bytes, or its initial bytes when its value overflowed.
   */
  lemma {:induction false} FillField(buf: seq<Byte>, fields: seq<Param>, encs: seq<Option<seq<Byte>>>, n: nat, i: nat)
    requires WithinLength(fields, |buf|) && Sized(fields, encs) && n <= |fields|
    requires PairwiseDisjoint(fields)
    requires i < n
    ensures var p := fields[i];
      Fill(buf, fields, encs, n)[p.begin..p.begin + p.size] == Written(encs[i], buf[p.begin..p.begin + p.size])
  {
    var p := fields[i];
    var before := Fill(buf, fields, encs, n - 1);
    if i == n - 1 {
      forall j | 0 <= j < n - 1
        ensures Disjoint(fields[j], p)
      {
        assert Disjoint(fields[j], fields[i]);
      }
      FillClear(buf, fields, encs, n - 1, p);
      PlaceOver(before, p, encs[i], buf[p.begin..p.begin + p.size]);
    } else {
      FillField(buf, fields, encs, n - 1, i);
      assert Disjoint(fields[n - 1], p) by {
        assert Disjoint(fields[i], fields[n - 1]);
      }
      PlaceKeeps(before, fields[n - 1], encs[n - 1], p, Written(encs[i], buf[p.begin..p.begin + p.size]));
    }
  }

  /**
   * A byte of the filled buffer depends only on the encodings of the
   * fields that cover it.
   */
  lemma {:induction false} FillAgree(buf: seq<Byte>, fields: seq<Param>, e1: seq<Option<seq<Byte>>>, e2: seq<Option<seq<Byte>>>, n: nat, k: nat)
    requires WithinLength(fields, |buf|) && Sized(fields, e1) && Sized(fields, e2) && n <= |fields|
    requires k < |buf|
    requires forall j :: 0 <= j < n && fields[j].Covers(k) ==> e1[j] == e2[j]
    ensures Fill(buf, fields, e1, n)[k] == Fill(buf, fields, e2, n)[k]
  {
    if n > 0 {
      var p := fields[n - 1];
      FillAgree(buf, fields, e1, e2, n - 1, k);
      var b1, b2 := Fill(buf, fields, e1, n - 1), Fill(buf, fields, e2, n - 1);
      if p.Covers(k) {
        assert e1[n - 1] == e2[n - 1];
        PlaceAgree(b1, b2, p, e1[n - 1], k);
      } else {
        PlaceOutside(b1, p, e1[n - 1], k);
        PlaceOutside(b2, p, e2[n - 1], k);
      }
    }
  }

  /** Placing the same encoding on two buffers that agree at byte `k` keeps them agreeing there. */
  lemma PlaceAgree(b1: seq<Byte>, b2: seq<Byte>, p: Param, enc: Option<seq<Byte>>, k: nat)
    requires p.begin + p.size <= |b1| == |b2| && SizedFor(p, enc)
    requires k < |b1| && b1[k] == b2[k]
    ensures Place(b1, p, enc)[k] == Place(b2, p, enc)[k]
  {
    if p.Covers(k) {
      var r1, r2 := Place(b1, p, enc), Place(b2, p, enc);
      var lo, hi := p.begin, p.begin + p.size;
      PlaceOver(b1, p, enc, b1[lo..hi]);
      PlaceOver(b2, p, enc, b2[lo..hi]);
      assert r1[k] == r1[lo..hi][k - lo];
      assert r2[k] == r2[lo..hi][k - lo];
      assert b1[k] == b1[lo..hi][k - lo];
      assert b2[k] == b2[lo..hi][k - lo];
    } else {
      PlaceOutside(b1, p, enc, k);
      PlaceOutside(b2, p, enc, k);
    }
  }

  /** Below the checksum byte, the encoded buffer is the buffer the loop filled. */
  lemma EncodeHeadSlice(s: Schema, obj: map<string, Value>, lo: nat, hi: nat)
    requires Encodable(s, obj)
    requires lo <= hi <= s.length - 1
    ensures Encode(s, obj)[lo..hi] == Filled(s, obj)[lo..hi]
  {
  }

  /**
   * The byte sum of every encoded message is 0x40 mod 256, and its last
   * byte is the checksum of all the others.
   */
  lemma EncodeChecksum(s: Schema, obj: map<string, Value>)
    requires Encodable(s, obj)
    ensures var r := Encode(s, obj);
      Sum(r) % 256 == 0x40 && r[s.length - 1] == Checksum(r[..s.length - 1])
  {
    var r := Encode(s, obj);
    var head := r[..s.length - 1];
    assert r == head + [Checksum(head)];
    SumAppend(head, [Checksum(head)]);
  }

  /**
   * In a well-formed schema each data field's slice of the encoded buffer
   * holds the field's bytes, or zeros when its value does not fit.
   */
  lemma EncodeField(s: Schema, obj: map<string, Value>, i: nat)
    requires WellFormed(s) && HasAttrs(Body(s.fmt), obj)
    requires i < |s.fmt| - 1
    ensures var p := s.fmt[i];
      Encode(s, obj)[p.begin..p.begin + p.size] == FieldBytes(p, obj[p.name], Zeros(p.size))
  {
    var p, z, body := s.fmt[i], Zeros(s.length), Body(s.fmt);
    var lo, hi := p.begin, p.begin + p.size;
    assert body[i] == p;
    WellFormedEncodable(s, obj);
    var encs := Encodings(body, obj);
    assert encs[i] == FieldEncoding(p, obj[p.name]);
    EncodeHeadSlice(s, obj, lo, hi);
    FillField(z, body, encs, |body|, i);
    ZerosSlice(s.length, lo, hi);
    assert Filled(s, obj)[lo..hi] == Written(encs[i], Zeros(p.size));
  }

  lemma ZerosSlice(n: nat, lo: nat, hi: nat)
    requires lo <= hi <= n
    ensures Zeros(n)[lo..hi] == Zeros(hi - lo)
  {
  }

  /** A well-formed schema can encode any object that has its data attributes. */
  lemma WellFormedEncodable(s: Schema, obj: map<string, Value>)
    requires WellFormed(s) && HasAttrs(Body(s.fmt), obj)
    ensures Encodable(s, obj)
  {
  }


  /** Bytes that no data field covers (except the checksum byte) are zero. */
  lemma EncodeGap(s: Schema, obj: map<string, Value>, k: nat)
    requires Encodable(s, obj)
    requires k < s.length - 1
    requires forall i :: 0 <= i < |s.fmt| - 1 ==> !s.fmt[i].Covers(k)
    ensures Encode(s, obj)[k] == 0
  {
    var body := Body(s.fmt);
    FillOutside(Zeros(s.length), body, Encodings(body, obj), |body|, k);
  }

  /**
   * Round trip: a data field whose integer fits its width, once encoded,
   * parses back to that integer.
   */
  lemma EncodeParse(s: Schema, obj: map<string, Value>, i: nat)
    requires WellFormed(s) && HasAttrs(Body(s.fmt), obj)
    requires i < |s.fmt| - 1
    requires var p := s.fmt[i]; Fits(RawOf(p, obj[p.name]), p.size, p.signed)
    ensures var p := s.fmt[i]; p.Parse(Encode(s, obj)) == RawOf(p, obj[p.name])
  {
    var p := s.fmt[i];
    EncodeField(s, obj, i);
    FromToBytes(RawOf(p, obj[p.name]), p.size, p.signed);
  }

  /**
   * The overflow policy: giving a data field a value that does not fit
   * leaves its slice all zero and changes no other byte but the checksum.
   */
  lemma OverflowZeroesOnlyItsField(s: Schema, obj: map<string, Value>, i: nat, v: Value)
    requires WellFormed(s) && HasAttrs(Body(s.fmt), obj)
    requires i < |s.fmt| - 1
    requires var p := s.fmt[i]; !Fits(RawOf(p, v), p.size, p.signed)
    ensures var p, obj' := s.fmt[i], obj[s.fmt[i].name := v];
      && Encodable(s, obj')
      && (forall k :: p.Covers(k) ==> Encode(s, obj')[k] == 0)
      && (forall k :: 0 <= k < s.length - 1 && !p.Covers(k) ==> Encode(s, obj')[k] == Encode(s, obj)[k])
  {
    var p, obj' := s.fmt[i], obj[s.fmt[i].name := v];
    var body := Body(s.fmt);
    assert HasAttrs(body, obj');
    EncodeField(s, obj', i);
    forall k | p.Covers(k)
      ensures Encode(s, obj')[k] == 0
    {
      assert Encode(s, obj')[k] == Encode(s, obj')[p.begin..p.begin + p.size][k - p.begin];
    }
    forall k | 0 <= k < s.length - 1 && !p.Covers(k)
      ensures Encode(s, obj')[k] == Encode(s, obj)[k]
    {
      var e, e' := Encodings(body, obj), Encodings(body, obj');
      forall j | 0 <= j < |body| && body[j].Covers(k)
        ensures e[j] == e'[j]
      {
        assert j != i;
        assert body[j].name != p.name;
      }
      FillAgree(Zeros(s.length), body, e, e', |body|, k);
    }
  }

  /**
   * `to_bytes` reads only the attributes named by `fmt[:-1]`: in
   * particular the checksum descriptor's attribute is never read.
   */
  lemma EncodeReadsOnlyBody(s: Schema, o1: map<string, Value>, o2: map<string, Value>)
    requires Encodable(s, o1) && Encodable(s, o2)
    requires forall i :: 0 <= i < |s.fmt| - 1 ==> o1[s.fmt[i].name] == o2[s.fmt[i].name]
    ensures Encode(s, o1) == Encode(s, o2)
  {
    var body := Body(s.fmt);
    assert Encodings(body, o1) == Encodings(body, o2);
  }

  // ---------------------------------------------------------------------
  // Properties of decode after encode

  /**
   * Decoding an attribute value from the integer `to_bytes` wrote for it:
   * exact for ints on unscaled fields, the same number (now a float) for
   * ints on scaled fields, and within one step of 1/mult, rounded toward
   * zero, for floats on scaled fields.
   */
  lemma DecodeRaw(p: Param, v: Value)
    ensures !p.Scaled() && v.Int? ==> Decode(p, RawOf(p, v)) == v
    ensures !p.Scaled() && v.Real? ==> Decode(p, RawOf(p, v)) == Int(Trunc(v.r))
    ensures p.Scaled() && v.Int? ==> Decode(p, RawOf(p, v)) == Real(v.i as real)
    ensures p.Scaled() && v.Real? ==>
      var m, d := p.mult.value as real, Decode(p, RawOf(p, v)).r;
      && d * m == Trunc(v.r * m) as real
      && (0.0 <= v.r * m ==> 0.0 <= (v.r - d) * m < 1.0)
      && (v.r * m < 0.0 ==> -1.0 < (v.r - d) * m <= 0.0)
  {
    if p.Scaled() {
      var m := p.mult.value as real;
      match v
      case Int(i) =>
        ScaleInt(i, p.mult.value);
      case Real(_) =>
        DecodeScaledReal(p, v);
    }
  }

  /** A float on a scaled field comes back as its scaled value truncated toward zero, divided by `mult`. */
  lemma DecodeScaledReal(p: Param, v: Value)
    requires p.Scaled() && v.Real?
    ensures var m, d := p.mult.value as real, Decode(p, RawOf(p, v)).r;
      && d * m == Trunc(v.r * m) as real
      && (0.0 <= v.r * m ==> 0.0 <= (v.r - d) * m < 1.0)
      && (v.r * m < 0.0 ==> -1.0 < (v.r - d) * m <= 0.0)
  {
    var t := Trunc(v.r * p.mult.value as real);
    assert RawOf(p, v) == t;
    ScaleReal(v.r, p.mult.value as real, t as real);
  }

  /** An int multiplied and then divided by the same nonzero int is the same number. */
  lemma ScaleInt(i: int, m: int)
    requires m != 0
    ensures (i * m) as real / m as real == i as real
  {
    assert (i * m) as real == i as real * m as real;
  }

  /** Dividing the truncated product by `m` undoes the scaling up to what truncation dropped. */
  lemma ScaleReal(x: real, m: real, t: real)
    requires m != 0.0
    ensures (t / m) * m == t
    ensures (x - t / m) * m == x * m - t
  {
  }

  /**
   * The record round trip: decoding an encoded message gives each data
   * field whose integer fits the decoded value of that integer.
   */
  lemma EncodeDecode(s: Schema, obj: map<string, Value>, defaults: map<string, Value>, i: nat)
    requires WellFormed(s) && HasAttrs(Body(s.fmt), obj)
    requires i < |s.fmt| - 1
    requires var p := s.fmt[i]; Fits(RawOf(p, obj[p.name]), p.size, p.signed)
    ensures var p, r := s.fmt[i], FromBytesSpec(s.fmt, defaults, Encode(s, obj));
      p.name in r && r[p.name] == Decode(p, RawOf(p, obj[p.name]))
  {
    EncodeParse(s, obj, i);
    FromBytesSpecField(s.fmt, defaults, Encode(s, obj), i);
  }
}
