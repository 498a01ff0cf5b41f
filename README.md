# FreeD codec model

A Dafny model of `FreeD.py`, a declarative binary codec for the FreeD
camera-tracking protocol. A message kind is a fixed-length byte buffer
described by a list of field descriptors (`Param`: name, offset, width,
optional fixed-point multiplier, signedness). The generic `Message` class
decodes a buffer into a dict of raw integers (`parse`) or into a typed
object (`from_bytes`), encodes an object into a checksummed buffer
(`to_bytes`), and computes the additive checksum (`checksum`). Two
concrete kinds are defined: `D1` (camera pose, 29 bytes) and `DA` (camera
calibration, 30 bytes).

Modules, one per part of the program:

- `BigEndian` (big_endian.dfy): Python's `int.from_bytes` and
  `int.to_bytes` with `byteorder='big'`, signed or unsigned. The overflow
  that `to_bytes` raises is the `None` case of an `Option`.
- `FieldDescriptor` (field_descriptor.dfy): `Param`, its `loc` slice and
  `parse`. Python slicing clamps instead of raising, and the model does the
  same.
- `Dicts` (dicts.dfy): a Python dict with string keys, as its ordered list
  of entries.
- `Message` (message.dfy): `checksum` as a function; `parse` and
  `from_bytes` as methods that fill a dict or an object field by field,
  each proved equal to a fold. `to_bytes` is a method that writes into an `array` of bytes, proved
  equal to the function `Encode`. The properties of the encoder are lemmas
  about `Encode`.
- `Schemas` (schemas.dfy): the `D1` and `DA` descriptor tables, their
  dataclass defaults, proofs that each table tiles its buffer, and concrete
  encodings.

An object is the map of its attributes (`map<string, Value>`). A value is
a Python `int` or a Python `float`, and floats are idealised as `real`.
The encoder's `int()` truncates toward zero (`Message.Trunc`).

## Model

| member | source | states |
|---|---|---|
| BigEndian.Unsigned | FreeD.py:20-22 | the unsigned big-endian value of n bytes lies in [0, 256^n) |
| BigEndian.FromBytes | FreeD.py:20-22 | `int.from_bytes` always yields a value that fits the width at the chosen signedness, in [0, 256^n) unsigned or [-2^(8n-1), 2^(8n-1)) signed |
| BigEndian.UnsignedBytes | FreeD.py:57-59 | writing u < 256^n unsigned gives exactly n bytes whose big-endian value is u |
| BigEndian.ToBytes | FreeD.py:57-59 | `int.to_bytes` succeeds exactly when the value fits the width at the chosen signedness (negative values unsigned overflow), and gives exactly `size` bytes |
| BigEndian.FromToBytes | FreeD.py:57-59 | writing a value that fits and reading it back with the same signedness gives the value |
| BigEndian.ToFromBytes | FreeD.py:20-22 | reading any bytes and writing the value back in the same width gives the same bytes |
| BigEndian.SignBit | FreeD.py:20-22 | the first byte is at least 0x80 exactly when the unsigned value reaches 2^(8n-1), which is where signed decoding turns negative |
| BigEndian.UnsignedBytesOfUnsigned | FreeD.py:20-22 | unsigned decoding is injective on fixed-width byte strings |
| BigEndian.FitsWiden | FreeD.py:19-22 | a value that fits m bytes fits any wider field |
| FieldDescriptor.Slice | FreeD.py:16-20 | Python slicing clamps: an in-range slice is the exact sub-sequence, a slice starting past the end is empty, and no slice is longer than its range |
| FieldDescriptor.Param.Loc | FreeD.py:15-17 | `loc` is the slice of `size` bytes starting at `begin` |
| FieldDescriptor.Param.Parse | FreeD.py:15-22 | `parse` reads `buf[begin:begin+size]` as big-endian at the field's signedness, its result always fits the field, a field cut short by the end of the buffer reads the bytes that are there, and a field starting past the end reads 0 |
| FieldDescriptor.Param.Assign | FreeD.py:57 | `buf[loc] = bs` keeps the buffer's length and puts `bs` in the field's slice |
| FieldDescriptor.ParseAfterAssign | FreeD.py:57-59 | a value that fits, written into a field's slice, parses back to itself whatever the rest of the buffer holds |
| FieldDescriptor.ParseLocal | FreeD.py:15-22 | a field reads only its own bytes |
| Dicts.Keys | FreeD.py:35-37 | the keys of a dict in iteration order, one per entry |
| Dicts.Put | FreeD.py:37 | `d[k] = v` appends a new key at the end, and an existing key keeps its position and takes the new value |
| Dicts.PutLookup | FreeD.py:37 | after `d[k] = v`, `k` holds `v` and every entry with another key is as it was |
| Dicts.PutDistinct | FreeD.py:37 | `d[k] = v` keeps the keys of a dict distinct |
| Message.Names | FreeD.py:36 | the descriptor names in `fmt` order |
| Message.Body | FreeD.py:52 | `fmt[:-1]` is every descriptor but the last, in order |
| Message.Sum | FreeD.py:31 | `sum` of n bytes is at most 255n, and 0 for no bytes |
| Message.Checksum | FreeD.py:29-31 | `checksum(buf)` is a byte, and it is the byte that brings the byte sum of `buf` to 0x40 modulo 256 |
| Message.SumAppend | FreeD.py:31 | `sum` over a concatenation is the sum of the parts |
| Message.ParseSpecKeys | FreeD.py:35-37 | whatever the names, the dict `parse` builds (`ParseSpec`) has exactly the descriptor names as keys and at most one entry per descriptor |
| Message.ParseSpecDistinct | FreeD.py:35-37 | whatever the names, the dict `parse` builds has distinct keys |
| Message.Entries | FreeD.py:33-38 | one entry per descriptor, in `fmt` order, keyed by its name |
| Message.ParseSpecEntries | FreeD.py:33-38 | with distinct names, the dict that `parse` builds field by field has exactly one entry per descriptor, in `fmt` order, including `_id` and `_chk`, each holding that field's raw value, and nothing is checked |
| Message.Parse | FreeD.py:33-38 | the `parse` loop builds the dict of successive assignments, which is one entry per descriptor when names are distinct |
| Message.DecodeInverts | FreeD.py:44-46 | `Decode` keeps an unscaled field's raw int; a scaled field becomes a float that, multiplied by `mult`, gives the raw value back |
| Message.ZeroMultUnscaled | FreeD.py:45-55 | `if param.mult:` (`Param.Scaled`) is false for `mult=0` as for no `mult`: such a field decodes to its raw int and encodes `int(value)` unscaled |
| Message.FromBytesSpecUnique | FreeD.py:42-47 | with distinct names, the object `from_bytes` builds (`FromBytesSpec`) holds each descriptor's decoded value under its name |
| Message.FromBytesSpecExact | FreeD.py:42-47 | when the fresh object's attributes are all descriptor names and names are distinct, the decoded object has exactly the descriptor names as attributes, each holding its decoded value |
| Message.FromBytesSpecKeys | FreeD.py:40-48 | the decoded object has the fresh object's attributes plus one per descriptor name, and no others |
| Message.FromBytesSpecField | FreeD.py:40-48 | each descriptor's attribute holds its raw value, divided by `mult` when `mult` is set and nonzero, and the last descriptor of a repeated name wins |
| Message.FromBytesSpecDefaults | FreeD.py:42 | attributes no descriptor names keep their dataclass default |
| Message.FromBytes | FreeD.py:40-48 | the `from_bytes` loop sets each descriptor's attribute to its decoded value, with no checksum or tag check |
| Message.Scale | FreeD.py:54-55 | `value *= mult` keeps an int an int and a float a float, and multiplies the number by `mult` |
| Message.ToInt | FreeD.py:57 | `int()` leaves an int unchanged and truncates a float toward zero |
| Message.Trunc | FreeD.py:57 | `int()` truncates toward zero, for positive and negative values |
| Message.RawOfTruncates | FreeD.py:54-57 | the integer written for a field (`RawOf`) is its value, times `mult` when scaled, truncated toward zero, and exact for an int |
| Message.FieldEncoding | FreeD.py:54-59 | `int(value).to_bytes(size, 'big', signed=signed)` succeeds exactly when the scaled, truncated value fits the field, and then gives `size` bytes that read back as that value |
| Message.Encodings | FreeD.py:52-59 | the bytes the loop computes for each descriptor of `fmt[:-1]`, each sized to its field, from the attribute of that descriptor's name |
| Message.Place | FreeD.py:56-59 | one loop step keeps the buffer length |
| Message.Fill | FreeD.py:52-59 | the loop over `fmt[:-1]` keeps the buffer length |
| Message.Zeros | FreeD.py:51 | `bytearray(n)` is n zero bytes |
| Message.Filled | FreeD.py:51-59 | the buffer after the loop over `fmt[:-1]` still has `length` bytes |
| Message.Encode | FreeD.py:50-61 | the encoded message has exactly `length` bytes |
| Message.AssignSlice | FreeD.py:57 | the byte-by-byte slice assignment changes exactly the slice |
| Message.WriteField | FreeD.py:53-59 | one iteration of the `to_bytes` loop on the bytearray is the step `Place` describes |
| Message.WriteFields | FreeD.py:52-59 | the `to_bytes` loop over `fmt[:-1]` leaves the bytearray holding what `Fill` computes for the object's encodings |
| Message.ToBytes | FreeD.py:50-61 | the `to_bytes` method returns exactly the bytes of `Encode` |
| Message.FillOutside | FreeD.py:52-59 | bytes no written field covers keep their initial value |
| Message.FillClear | FreeD.py:52-59 | writing fields that stay clear of another field's slice leaves that slice as it was |
| Message.PlaceOutside | FreeD.py:56-59 | writing a field changes no byte outside its slice |
| Message.PlaceKeeps | FreeD.py:56-59 | writing a field leaves a disjoint field's slice unchanged |
| Message.PlaceOver | FreeD.py:56-59 | after one loop step the field's slice holds the field's bytes, or its old bytes when `to_bytes` overflows |
| Message.PlaceAgree | FreeD.py:56-59 | one loop step maps buffers that agree on a byte to buffers that agree on it |
| Message.FillField | FreeD.py:52-59 | with non-overlapping fields, each field's slice ends up holding its own bytes, or its initial bytes on overflow |
| Message.FillAgree | FreeD.py:52-59 | a byte of the filled buffer depends only on the values of the fields covering it |
| Message.EncodeHeadSlice | FreeD.py:60 | below the last byte, the result is the buffer the loop filled |
| Message.EncodeChecksum | FreeD.py:50-61 | every encoded message's byte sum is 0x40 modulo 256, and its last byte is the checksum of the first `length-1` bytes |
| Message.EncodeField | FreeD.py:51-59 | in a well-formed schema each data field's slice holds that field's bytes, or zeros when its value does not fit |
| Message.ZerosSlice | FreeD.py:51 | any slice of a zero buffer is zero |
| Message.WellFormedEncodable | FreeD.py:50-61 | a well-formed schema encodes any object that has its data attributes |
| Message.EncodeGap | FreeD.py:51-59 | bytes no data field covers, other than the checksum byte, are zero |
| Message.EncodeParse | FreeD.py:50-61 | round trip: a data field whose integer fits, once encoded, parses back to that integer |
| Message.OverflowZeroesOnlyItsField | FreeD.py:56-59 | giving a field a value that does not fit still encodes, leaves that field's slice all zero and changes no other byte but the checksum |
| Message.EncodeReadsOnlyBody | FreeD.py:52-60 | `to_bytes` reads only the attributes `fmt[:-1]` names, so the `_chk` attribute never influences the output |
| Message.DecodeRaw | FreeD.py:44-57 | decoding what the encoder wrote: ints on unscaled fields come back exact, ints on scaled fields come back as the same number, and floats on scaled fields come back truncated toward zero to a multiple of 1/mult |
| Message.DecodeScaledReal | FreeD.py:44-57 | a float on a scaled field, encoded and decoded, comes back as its value truncated toward zero to a multiple of 1/mult |
| Message.EncodeDecode | FreeD.py:40-61 | record round trip: decoding an encoded message gives each fitting data field the decoded value of the integer written for it |
| Schemas.ContiguousTiles | FreeD.py:80-92 | descriptors laid end to end with positive widths tile their range exactly and are pairwise disjoint |
| Schemas.NameSetHas | FreeD.py:80-92 | every descriptor name from an index on is in that suffix's name set |
| Schemas.BodyNames | FreeD.py:52 | every name of `fmt[:-1]` is a name of `fmt` |
| Schemas.DistinctUnique | FreeD.py:80-92 | names checked distinct one by one are pairwise distinct |
| Schemas.TiledWellFormed | FreeD.py:80-92 | a table that tiles its buffer, ends with a one-byte checksum field and has distinct names is well formed |
| Schemas.D1Layout | FreeD.py:64-93 | the D1 table starts with `_id` at byte 0, ends with `_chk` at byte 28, tiles [0, 29) exactly, and is well formed |
| Schemas.D1Distinct | FreeD.py:80-92 | the D1 descriptor names are distinct |
| Schemas.DALayout | FreeD.py:96-125 | the DA table starts with `_id` at byte 0, ends with `_chk` at byte 29, tiles [0, 30) exactly, and is well formed |
| Schemas.DADistinct | FreeD.py:112-124 | the DA descriptor names are distinct |
| Schemas.D1Attrs | FreeD.py:64-79 | a D1 object's attributes (`D1.Attrs`), with `_id` found on the class as 0xD1, are exactly the names of the descriptors `to_bytes` reads |
| Schemas.DAAttrs | FreeD.py:96-111 | a DA object's attributes (`DA.Attrs`), with `_id` found on the class as 0xDA, are exactly the names of the descriptors `to_bytes` reads |
| Schemas.D1FromBytes | FreeD.py:64-93 | `D1.from_bytes`, starting from the dataclass defaults `D1Default`, yields an object whose attributes are exactly the D1 table's names, `_id` and `_chk` included, each holding its decoded value |
| Schemas.DAFromBytes | FreeD.py:96-125 | `DA.from_bytes`, starting from the dataclass defaults `DADefault`, yields an object whose attributes are exactly the DA table's names, `_id` and `_chk` included, each holding its decoded value |
| Schemas.D1HasAttrs | FreeD.py:68-92 | a D1 record has an attribute for every D1 data descriptor |
| Schemas.DAHasAttrs | FreeD.py:100-124 | a DA record has an attribute for every DA data descriptor |
| Schemas.D1Slice | FreeD.py:50-61 | each D1 data field's bytes in the encoded message |
| Schemas.OneByte | FreeD.py:57-59 | a byte value encodes to itself on one unsigned byte |
| Schemas.D1TagFirst | FreeD.py:68-81 | every D1 object built by the dataclass constructor, whose `_id` is the class attribute, encodes with the tag 0xD1 first |
| Schemas.D1DecodedTag | FreeD.py:40-61 | an object `D1.from_bytes` returns holds the parsed `_id`, which hides the class's; encoding it again writes the buffer's first byte (0 for an empty buffer), not 0xD1 |
| Schemas.D1TagOf | FreeD.py:53-60 | any object holding the attributes `to_bytes` reads writes its own `_id` byte first, whatever the class's tag |
| Schemas.D1DecodedId | FreeD.py:44-47 | `D1.from_bytes` sets `_id` on the object to the buffer's first byte, or 0 for an empty buffer |
| Schemas.FirstByte | FreeD.py:19-22 | a one-byte unsigned field at offset 0 parses the first byte, or 0 from an empty buffer |
| Schemas.D1DecodedHasAttrs | FreeD.py:40-53 | an object `D1.from_bytes` returns has every attribute `to_bytes` reads |
| Schemas.DATagFirst | FreeD.py:100-113 | every DA object built by the dataclass constructor, whose `_id` is the class attribute, encodes with the tag 0xDA first |
| Schemas.D1CameraByte | FreeD.py:82 | a camera id that fits a byte is written at offset 1 |
| Schemas.D1HalfDegreePan | FreeD.py:83 | a pan of 0.5 is written as 0x00 0x40 0x00 at offsets 2..4 |
| Schemas.PoseExample | FreeD.py:80-92 | the pose {cam 1, pan 0.5, rest 0} encodes to 29 bytes starting 0xD1 0x01 0x00 0x40 0x00, with the checksum last and a byte sum of 0x40 modulo 256 |
| Schemas.PanTruncatesTowardZero | FreeD.py:54-57 | a pan of 1.9999 is written as 65532 and a pan of -1.9999 as -65532 |
| Schemas.ZoomOverflow | FreeD.py:56-59 | a zoom above 16,777,215 leaves bytes 20..22 zero and every other byte before the checksum unchanged |

## Left out

- Floating point: Python floats are idealised as exact `real`s. The
  division `value /= param.mult` and the product `value *= param.mult`
  are exact, with no rounding, infinities or NaN. In Python `int()` of an
  infinite value raises OverflowError, which `suppress(OverflowError)`
  swallows so the field stays zero; `int()` of NaN raises ValueError,
  which escapes `to_bytes`. Neither case arises in the model.
- Message.DecodeInverts: the model states that decoding divides exactly,
  so a decoded value times `mult` is the raw value again, and what
  `Message.DecodeRaw` states about decoding what was encoded holds
  exactly. With
  binary floats this is not guaranteed when `mult` is not a power of two
  (64000 for the position and offset fields).
- Values of other types: an attribute holds an `int` or a `float`. Any
  other type an attribute could be given by hand is not modelled.
- Python attribute machinery: `setattr`, `getattr` and the class attribute
  `_id` are replaced by a map from attribute name to value. `D1.Attrs` and
  `DA.Attrs` include `_id`, as `getattr` finds it on the class, so the `D1`
  and `DA` datatypes stand only for objects built by the constructor. A
  decoded object is the map `Message.FromBytesSpec` builds. That map holds
  the parsed `_id` and `_chk`, and encoding it writes the parsed `_id`
  (`Schemas.D1DecodedTag`).
- Message.Encode: a `getattr` of a missing attribute (AttributeError) is
  excluded by a precondition. The dataclasses always have every data
  attribute, which `Schemas.D1HasAttrs` and `Schemas.DAHasAttrs` show.
- Message.Encode: a schema with `length` 0 (where `result[-1]` raises
  IndexError) and a data field reaching past the buffer (where the
  bytearray slice assignment would grow the buffer) are excluded by a
  precondition. `Message.WellFormedEncodable` shows that D1 and DA meet it.
- The exception mechanism: `suppress(OverflowError)` is modelled by the
  `None` result of `BigEndian.ToBytes`, not by exceptions.
- The `__main__` demonstration (FreeD.py:128-133) only prints and is not
  part of this model.
- Short buffers are not rejected: `parse` and `from_bytes` clamp each
  slice and apply `int.from_bytes` to the shorter or empty slice, so
  decoding a buffer shorter than `length` never fails, and the model does
  the same.
- Negative offsets and widths: `Param.begin` and `Param.size` are `nat`.
  In Python a negative `begin` slices from the end of the buffer, and a
  negative `size` makes `to_bytes` raise ValueError, which
  `suppress(OverflowError)` does not catch. No D1 or DA descriptor uses
  either, so the model leaves them out.
