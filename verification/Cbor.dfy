/**
 * The CBOR subset of COSE keys (integers, byte strings, maps): the decoder, the set of
 * encodings section 3.1 of RFC 8949 allows for those types, and the ES256 key built from them.
 */
module Cbor {
  import opened Common

  type Byte = b: int | 0 <= b < 256
  type Bytes = seq<Byte>

  datatype Value = Int(i: int) | ByteString(bytes: Bytes) | Map(fields: map<int, Value>)

  datatype Error = Malformed | UnsupportedKey | BadLength

  /** An item and the offset after it. */
  datatype Decoded<+T> = Decoded(value: T, next: nat)

  // ---------------------------------------------------------------- big-endian words

  function Pow256(n: nat): nat {
    if n == 0 then 1 else 256 * Pow256(n - 1)
  }

  function BigEndian(s: Bytes): nat {
    if s == [] then 0 else BigEndian(s[..|s| - 1]) * 256 + s[|s| - 1]
  }

  function ToBytes(u: nat, n: nat): (s: Bytes)
    ensures |s| == n
  {
    if n == 0 then [] else ToBytes(u / 256, n - 1) + [u % 256]
  }

  lemma {:induction false} BigEndianOfBytes(u: nat, n: nat)
    requires u < Pow256(n)
    ensures BigEndian(ToBytes(u, n)) == u
  {
    if n > 0 {
      BigEndianOfBytes(u / 256, n - 1);
      var s := ToBytes(u, n);
      assert s[..n - 1] == ToBytes(u / 256, n - 1);
    }
  }

  lemma {:induction false} BytesOfBigEndian(s: Bytes)
    ensures BigEndian(s) < Pow256(|s|) && ToBytes(BigEndian(s), |s|) == s
  {
    if s != [] {
      var n := |s| - 1;
      BytesOfBigEndian(s[..n]);
      assert BigEndian(s) / 256 == BigEndian(s[..n]) && BigEndian(s) % 256 == s[n];
      assert s == s[..n] + [s[n]];
    }
  }

  lemma BigEndianInjective(s: Bytes, t: Bytes)
    requires |s| == |t| && BigEndian(s) == BigEndian(t)
    ensures s == t
  {
    BytesOfBigEndian(s);
    BytesOfBigEndian(t);
  }

  // ---------------------------------------------------------------- the decoder, as a function

  /** The conversion uint64 -> int64. */
  function AsInt64(u: nat): int {
    if u < 0x8000_0000_0000_0000 then u else u - 0x1_0000_0000_0000_0000
  }

  function Read(buf: Bytes, o: nat, n: nat): Result<Decoded<Bytes>, Error> {
    if o + n > |buf| then Err(Malformed) else Ok(Decoded(buf[o..o + n], o + n))
  }

  function WordSize(info: nat): nat {
    if info == 24 then 1 else if info == 25 then 2 else if info == 26 then 4 else if info == 27 then 8 else 0
  }

  function ReadUint(buf: Bytes, o: nat, info: nat): Result<Decoded<nat>, Error> {
    if info < 24 then Ok(Decoded(info, o))
    else if info > 27 then Err(Malformed)
    else match Read(buf, o, WordSize(info))
      case Err(e) => Err(e)
      case Ok(word) => Ok(Decoded(BigEndian(word.value), word.next))
  }

  function DecodeItem(buf: Bytes, o: nat): (r: Result<Decoded<Value>, Error>)
    requires o <= |buf|
    ensures r.Ok? ==> o < r.value.next <= |buf|
    decreases |buf| - o, 0, 0
  {
    if o == |buf| then Err(Malformed)
    else
      var major, info := buf[o] / 32, buf[o] % 32;
      if major !in {0, 1, 2, 5} then Err(Malformed)
      else match ReadUint(buf, o + 1, info)
        case Err(e) => Err(e)
        case Ok(head) =>
          if major == 0 then Ok(Decoded(Int(AsInt64(head.value)), head.next))
          else if major == 1 then Ok(Decoded(Int(-1 - AsInt64(head.value)), head.next))
          else if major == 2 then
            match Read(buf, head.next, head.value)
            case Err(e) => Err(e)
            case Ok(body) => Ok(Decoded(ByteString(body.value), body.next))
          else
            match DecodeEntries(buf, head.next, head.value, map[])
            case Err(e) => Err(e)
            case Ok(fields) => Ok(Decoded(Map(fields.value), fields.next))
  }

  function DecodeEntries(buf: Bytes, o: nat, n: nat, fields: map<int, Value>): (r: Result<Decoded<map<int, Value>>, Error>)
    requires o <= |buf|
    ensures r.Ok? ==> o <= r.value.next <= |buf|
    decreases |buf| - o, 1, n
  {
    if n == 0 then Ok(Decoded(fields, o))
    else match DecodeItem(buf, o)
      case Err(e) => Err(e)
      case Ok(key) =>
        if !key.value.Int? then Err(Malformed)
        else match DecodeItem(buf, key.next)
          case Err(e) => Err(e)
          case Ok(value) => DecodeEntries(buf, value.next, n - 1, fields[key.value.i := value.value])
  }

  /** The whole buffer is one map. */
  function DecodeMap(buf: Bytes): Result<map<int, Value>, Error> {
    match DecodeItem(buf, 0)
    case Err(e) => Err(e)
    case Ok(item) =>
      if item.next != |buf| then Err(Malformed)
      else if !item.value.Map? then Err(Malformed)
      else Ok(item.value.fields)
  }

  // ---------------------------------------------------------------- the encodings

  /** How an argument is written: in the head byte, or in a word of 1, 2, 4 or 8 bytes. */
  datatype Form = Inline | Word1 | Word2 | Word4 | Word8

  /** One encoding of one item; the form of every argument is free, as the RFC allows. */
  datatype Encoding =
    | Unsigned(form: Form, u: nat)
    | Negative(form: Form, u: nat)
    | Octets(form: Form, bytes: Bytes)
    | Pairs(form: Form, entries: Entries)

  datatype Entries = NoEntries | Entry(key: Encoding, value: Encoding, rest: Entries)

  function Count(es: Entries): nat {
    match es case NoEntries => 0 case Entry(_, _, rest) => 1 + Count(rest)
  }

  function InfoOf(form: Form, u: nat): nat {
    match form case Inline => u case Word1 => 24 case Word2 => 25 case Word4 => 26 case Word8 => 27
  }

  function FormSize(form: Form): nat {
    match form case Inline => 0 case Word1 => 1 case Word2 => 2 case Word4 => 4 case Word8 => 8
  }

  predicate Fits(form: Form, u: nat) {
    if form.Inline? then u < 24 else u < Pow256(FormSize(form))
  }

  function Head(major: nat, form: Form, u: nat): Bytes
    requires major < 8 && Fits(form, u)
  {
    [major * 32 + InfoOf(form, u)] + ToBytes(u, FormSize(form))
  }

  predicate WellFormed(e: Encoding) {
    match e
    case Unsigned(form, u) => Fits(form, u)
    case Negative(form, u) => Fits(form, u)
    case Octets(form, bytes) => Fits(form, |bytes|)
    case Pairs(form, entries) => Fits(form, Count(entries)) && WellFormedEntries(entries)
  }

  predicate WellFormedEntries(es: Entries) {
    match es
    case NoEntries => true
    case Entry(key, value, rest) =>
      (key.Unsigned? || key.Negative?) && WellFormed(key) && WellFormed(value) && WellFormedEntries(rest)
  }

  function Encode(e: Encoding): Bytes
    requires WellFormed(e)
  {
    match e
    case Unsigned(form, u) => Head(0, form, u)
    case Negative(form, u) => Head(1, form, u)
    case Octets(form, bytes) => Head(2, form, |bytes|) + bytes
    case Pairs(form, entries) => Head(5, form, Count(entries)) + EncodeEntries(entries)
  }

  function EncodeEntries(es: Entries): Bytes
    requires WellFormedEntries(es)
  {
    match es
    case NoEntries => []
    case Entry(key, value, rest) => Encode(key) + (Encode(value) + EncodeEntries(rest))
  }

  /** The value an encoding stands for in section 3.1 of RFC 8949: an argument u means u or -1 - u. */
  function Meaning(e: Encoding): Value {
    match e
    case Unsigned(_, u) => Int(u)
    case Negative(_, u) => Int(-1 - u)
    case Octets(_, bytes) => ByteString(bytes)
    case Pairs(_, entries) => Map(Fields(entries, map[]))
  }

  function KeyOf(e: Encoding): int {
    if e.Unsigned? then e.u else if e.Negative? then -1 - e.u else 0
  }

  /** Entries are stored in order; a repeated key keeps its last value. */
  function Fields(es: Entries, fields: map<int, Value>): map<int, Value> {
    match es
    case NoEntries => fields
    case Entry(key, value, rest) => Fields(rest, fields[KeyOf(key) := Meaning(value)])
  }

  /** What the decoder makes of it: integers are taken modulo 2^64 into int64. */
  function Reading(e: Encoding): Value {
    match e
    case Unsigned(_, u) => Int(AsInt64(u))
    case Negative(_, u) => Int(-1 - AsInt64(u))
    case Octets(_, bytes) => ByteString(bytes)
    case Pairs(_, entries) => Map(FieldsRead(entries, map[]))
  }

  function KeyRead(e: Encoding): int {
    if e.Unsigned? then AsInt64(e.u) else if e.Negative? then -1 - AsInt64(e.u) else 0
  }

  function FieldsRead(es: Entries, fields: map<int, Value>): map<int, Value> {
    match es
    case NoEntries => fields
    case Entry(key, value, rest) =>
      FieldsRead(rest, fields[KeyRead(key) := Reading(value)])
  }

  // ---------------------------------------------------------------- decoding inverts encoding

  /** `s` stands at offset `o`. */
  ghost predicate At(buf: Bytes, o: nat, s: Bytes) {
    o + |s| <= |buf| && buf[o..o + |s|] == s
  }

  lemma AtSplit(buf: Bytes, o: nat, s: Bytes, t: Bytes)
    requires At(buf, o, s + t)
    ensures At(buf, o, s) && At(buf, o + |s|, t)
  {
    var whole := buf[o..o + |s| + |t|];
    assert whole == s + t;
    assert whole[..|s|] == s && whole[|s|..] == t;
    assert buf[o..o + |s|] == whole[..|s|];
    assert buf[o + |s|..o + |s| + |t|] == whole[|s|..];
  }

  lemma HeadByte(major: nat, info: nat)
    requires major < 8 && info < 32
    ensures (major * 32 + info) / 32 == major && (major * 32 + info) % 32 == info
  {
  }

  lemma WordRead(buf: Bytes, o: nat, form: Form, u: nat)
    requires !form.Inline? && Fits(form, u) && At(buf, o, ToBytes(u, FormSize(form)))
    ensures ReadUint(buf, o, InfoOf(form, u)) == Ok(Decoded(u, o + FormSize(form)))
  {
    var n := FormSize(form);
    assert WordSize(InfoOf(form, u)) == n;
    BigEndianOfBytes(u, n);
    hide ToBytes, BigEndian, Pow256;
    assert Read(buf, o, n) == Ok(Decoded(ToBytes(u, n), o + n));
  }

  lemma DecodeHead(buf: Bytes, o: nat, major: nat, form: Form, u: nat)
    requires major < 8 && Fits(form, u) && At(buf, o, Head(major, form, u))
    ensures o < |buf| && buf[o] / 32 == major && buf[o] % 32 == InfoOf(form, u)
    ensures ReadUint(buf, o + 1, InfoOf(form, u)) == Ok(Decoded(u, o + |Head(major, form, u)|))
  {
    var b: Byte := major * 32 + InfoOf(form, u);
    var word := ToBytes(u, FormSize(form));
    HeadByte(major, InfoOf(form, u));
    AtSplit(buf, o, [b], word);
    hide ToBytes, Pow256;
    assert buf[o] == buf[o..o + 1][0] == b;
    if !form.Inline? {
      hide At, ReadUint;
      WordRead(buf, o + 1, form, u);
    }
  }

  /** Decoding at `o` yields `v` and ends at `next`. */
  ghost predicate Yields(buf: Bytes, o: nat, v: Value, next: nat) {
    o <= |buf| && DecodeItem(buf, o) == Ok(Decoded(v, next))
  }

  ghost predicate YieldsFields(buf: Bytes, o: nat, n: nat, before: map<int, Value>, after: map<int, Value>, next: nat) {
    o <= |buf| && DecodeEntries(buf, o, n, before) == Ok(Decoded(after, next))
  }

  lemma ItemStep(buf: Bytes, o: nat, u: nat, next: nat)
    requires o < |buf| && next <= |buf| && ReadUint(buf, o + 1, buf[o] % 32) == Ok(Decoded(u, next))
    ensures buf[o] / 32 == 0 ==> Yields(buf, o, Int(AsInt64(u)), next)
    ensures buf[o] / 32 == 1 ==> Yields(buf, o, Int(-1 - AsInt64(u)), next)
    ensures buf[o] / 32 == 2 && next + u <= |buf| ==> Yields(buf, o, ByteString(buf[next..next + u]), next + u)
  {
  }

  lemma MapStep(buf: Bytes, o: nat, n: nat, head: nat, fields: map<int, Value>, next: nat)
    requires o < |buf| && buf[o] / 32 == 5 && ReadUint(buf, o + 1, buf[o] % 32) == Ok(Decoded(n, head))
    requires YieldsFields(buf, head, n, map[], fields, next)
    ensures Yields(buf, o, Map(fields), next)
  {
  }

  lemma EntriesStep(buf: Bytes, o: nat, n: nat, fields: map<int, Value>, key: int, k: nat, value: Value, v: nat,
                    after: map<int, Value>, next: nat)
    requires Yields(buf, o, Int(key), k) && Yields(buf, k, value, v)
    requires YieldsFields(buf, v, n, fields[key := value], after, next)
    ensures YieldsFields(buf, o, n + 1, fields, after, next)
  {
  }

  lemma ScalarDecodes(buf: Bytes, o: nat, e: Encoding)
    requires WellFormed(e) && !e.Pairs? && At(buf, o, Encode(e))
    ensures Yields(buf, o, Reading(e), o + |Encode(e)|)
  {
    match e
    case Unsigned(form, u) =>
      DecodeHead(buf, o, 0, form, u);
      ItemStep(buf, o, u, o + |Head(0, form, u)|);
    case Negative(form, u) =>
      DecodeHead(buf, o, 1, form, u);
      ItemStep(buf, o, u, o + |Head(1, form, u)|);
    case Octets(form, bytes) =>
      var head := Head(2, form, |bytes|);
      AtSplit(buf, o, head, bytes);
      DecodeHead(buf, o, 2, form, |bytes|);
      ItemStep(buf, o, |bytes|, o + |head|);
  }

  lemma MapDecodes(buf: Bytes, o: nat, form: Form, es: Entries, h: nat, next: nat)
    requires WellFormed(Pairs(form, es)) && At(buf, o, Head(5, form, Count(es)))
    requires h == o + |Head(5, form, Count(es))|
    requires YieldsFields(buf, h, Count(es), map[], FieldsRead(es, map[]), next)
    ensures Yields(buf, o, Reading(Pairs(form, es)), next)
  {
    DecodeHead(buf, o, 5, form, Count(es));
    MapStep(buf, o, Count(es), h, FieldsRead(es, map[]), next);
  }

  lemma EntryDecodes(buf: Bytes, o: nat, key: Encoding, value: Encoding, rest: Entries, fields: map<int, Value>, k: nat, v: nat, next: nat)
    requires WellFormedEntries(Entry(key, value, rest))
    requires Yields(buf, o, Reading(key), k) && Yields(buf, k, Reading(value), v)
    requires YieldsFields(buf, v, Count(rest), fields[KeyRead(key) := Reading(value)],
                          FieldsRead(rest, fields[KeyRead(key) := Reading(value)]), next)
    ensures YieldsFields(buf, o, Count(Entry(key, value, rest)), fields, FieldsRead(Entry(key, value, rest), fields), next)
  {
    EntryReading(key, value, rest, fields);
    EntriesStep(buf, o, Count(rest), fields, KeyRead(key), k, Reading(value), v, FieldsRead(Entry(key, value, rest), fields), next);
  }

  lemma EntryReading(key: Encoding, value: Encoding, rest: Entries, fields: map<int, Value>)
    requires WellFormedEntries(Entry(key, value, rest))
    ensures Count(Entry(key, value, rest)) == Count(rest) + 1 && Reading(key) == Int(KeyRead(key))
    ensures FieldsRead(Entry(key, value, rest), fields) == FieldsRead(rest, fields[KeyRead(key) := Reading(value)])
    ensures EncodeEntries(Entry(key, value, rest)) == Encode(key) + (Encode(value) + EncodeEntries(rest))
  {
  }

  lemma MapLayout(buf: Bytes, o: nat, form: Form, es: Entries) returns (h: nat, next: nat)
    requires WellFormed(Pairs(form, es)) && At(buf, o, Encode(Pairs(form, es)))
    ensures h == o + |Head(5, form, Count(es))| && next == h + |EncodeEntries(es)|
    ensures next == o + |Encode(Pairs(form, es))|
    ensures At(buf, o, Head(5, form, Count(es))) && At(buf, h, EncodeEntries(es))
  {
    hide At, Head, EncodeEntries;
    var head := Head(5, form, Count(es));
    h := o + |head|;
    next := h + |EncodeEntries(es)|;
    AtSplit(buf, o, head, EncodeEntries(es));
  }

  /** Every encoding decodes to its reading and consumes exactly its bytes, wherever it stands. */
  lemma {:induction false} DecodeInvertsEncode(buf: Bytes, o: nat, e: Encoding)
    requires WellFormed(e) && At(buf, o, Encode(e))
    ensures Yields(buf, o, Reading(e), o + |Encode(e)|)
    decreases e
  {
    hide Yields, YieldsFields, FieldsRead, Reading, Count, Head, Encode, EncodeEntries, At;
    if e.Pairs? {
      assert e == Pairs(e.form, e.entries);
      var h, next := MapLayout(buf, o, e.form, e.entries);
      DecodeEntriesInvertsEncode(buf, h, e.entries, map[]);
      MapDecodes(buf, o, e.form, e.entries, h, next);
    } else {
      ScalarDecodes(buf, o, e);
    }
  }

  /** Where the parts of an entry stand. */
  lemma EntryLayout(buf: Bytes, o: nat, key: Encoding, value: Encoding, rest: Entries) returns (k: nat, v: nat, next: nat)
    requires WellFormedEntries(Entry(key, value, rest)) && At(buf, o, EncodeEntries(Entry(key, value, rest)))
    ensures k == o + |Encode(key)| && v == k + |Encode(value)| && next == v + |EncodeEntries(rest)|
    ensures next == o + |EncodeEntries(Entry(key, value, rest))|
    ensures At(buf, o, Encode(key)) && At(buf, k, Encode(value)) && At(buf, v, EncodeEntries(rest))
  {
    hide Encode, EncodeEntries, At;
    EntryReading(key, value, rest, map[]);
    k, v := o + |Encode(key)|, o + |Encode(key)| + |Encode(value)|;
    next := v + |EncodeEntries(rest)|;
    AtSplit(buf, o, Encode(key), Encode(value) + EncodeEntries(rest));
    AtSplit(buf, k, Encode(value), EncodeEntries(rest));
  }

  lemma NoEntriesDecode(buf: Bytes, o: nat, fields: map<int, Value>)
    requires o <= |buf|
    ensures YieldsFields(buf, o, Count(NoEntries), fields, FieldsRead(NoEntries, fields), o + |EncodeEntries(NoEntries)|)
  {
  }

  lemma {:induction false} DecodeEntriesInvertsEncode(buf: Bytes, o: nat, es: Entries, fields: map<int, Value>)
    requires WellFormedEntries(es) && At(buf, o, EncodeEntries(es))
    ensures YieldsFields(buf, o, Count(es), fields, FieldsRead(es, fields), o + |EncodeEntries(es)|)
    decreases es
  {
    hide Yields, YieldsFields, FieldsRead, Reading, Count, KeyRead, Encode, EncodeEntries;
    match es
    case NoEntries =>
      NoEntriesDecode(buf, o, fields);
    case Entry(key, value, rest) =>
      var k, v, next := EntryLayout(buf, o, key, value, rest);
      DecodeInvertsEncode(buf, o, key);
      DecodeInvertsEncode(buf, k, value);
      DecodeEntriesInvertsEncode(buf, v, rest, fields[KeyRead(key) := Reading(value)]);
      EntryDecodes(buf, o, key, value, rest, fields, k, v, next);
  }

  // ---------------------------------------------------------------- nothing else decodes

  function FormOfInfo(info: nat): Form {
    if info < 24 then Inline else if info == 24 then Word1 else if info == 25 then Word2 else if info == 26 then Word4 else Word8
  }

  lemma HeadOfDecoded(buf: Bytes, o: nat)
    requires o < |buf| && ReadUint(buf, o + 1, buf[o] % 32).Ok?
    ensures var head, form := ReadUint(buf, o + 1, buf[o] % 32).value, FormOfInfo(buf[o] % 32);
      && Fits(form, head.value)
      && o < head.next <= |buf|
      && buf[o..head.next] == Head(buf[o] / 32, form, head.value)
  {
    var info := buf[o] % 32;
    var head, form := ReadUint(buf, o + 1, info).value, FormOfInfo(info);
    if info >= 24 {
      BytesOfBigEndian(buf[o + 1..head.next]);
    }
    assert buf[o..head.next] == [buf[o]] + buf[o + 1..head.next];
  }

  /** Conversely, whatever the decoder accepts is an encoding that reads as what it returns. */
  lemma {:induction false} DecodedIsEncoded(buf: Bytes, o: nat) returns (e: Encoding)
    requires o <= |buf| && DecodeItem(buf, o).Ok?
    ensures WellFormed(e) && Reading(e) == DecodeItem(buf, o).value.value
    ensures Encode(e) == buf[o..DecodeItem(buf, o).value.next]
    decreases |buf| - o, 0, 0
  {
    hide ReadUint, Head, FormOfInfo, Fits;
    HeadOfDecoded(buf, o);
    var major, form := buf[o] / 32, FormOfInfo(buf[o] % 32);
    var head := ReadUint(buf, o + 1, buf[o] % 32).value;
    var next := DecodeItem(buf, o).value.next;
    SliceSplit(buf, o, head.next, next);
    if major == 0 {
      e := Unsigned(form, head.value);
    } else if major == 1 {
      e := Negative(form, head.value);
    } else if major == 2 {
      e := Octets(form, buf[head.next..next]);
    } else {
      var es := EntriesAreEncoded(buf, head.next, head.value, map[]);
      e := Pairs(form, es);
    }
  }

  lemma SliceSplit(buf: Bytes, a: nat, b: nat, c: nat)
    requires a <= b <= c <= |buf|
    ensures buf[a..c] == buf[a..b] + buf[b..c]
  {
  }

  lemma {:induction false} EntriesAreEncoded(buf: Bytes, o: nat, n: nat, fields: map<int, Value>) returns (es: Entries)
    requires o <= |buf| && DecodeEntries(buf, o, n, fields).Ok?
    ensures WellFormedEntries(es) && Count(es) == n
    ensures FieldsRead(es, fields) == DecodeEntries(buf, o, n, fields).value.value
    ensures EncodeEntries(es) == buf[o..DecodeEntries(buf, o, n, fields).value.next]
    decreases |buf| - o, 1, n
  {
    if n == 0 {
      es := NoEntries;
    } else {
      var key := DecodeItem(buf, o).value;
      var value := DecodeItem(buf, key.next).value;
      var next := DecodeEntries(buf, o, n, fields).value.next;
      var k := DecodedIsEncoded(buf, o);
      var v := DecodedIsEncoded(buf, key.next);
      var rest := EntriesAreEncoded(buf, value.next, n - 1, fields[key.value.i := value.value]);
      es := Entry(k, v, rest);
      SliceSplit(buf, key.next, value.next, next);
      SliceSplit(buf, o, key.next, next);
      EntryReading(k, v, rest, fields);
    }
  }

  // ---------------------------------------------------------------- whole buffers

  /** A buffer decodes to a value, using all its bytes, exactly when it is an encoding that reads as that value. */
  lemma DecodesIffEncodes(buf: Bytes, v: Value)
    ensures Yields(buf, 0, v, |buf|) <==> exists e :: WellFormed(e) && Encode(e) == buf && Reading(e) == v
  {
    if Yields(buf, 0, v, |buf|) {
      var e := DecodedIsEncoded(buf, 0);
      assert buf[0..|buf|] == buf;
    }
    forall e | WellFormed(e) && Encode(e) == buf && Reading(e) == v ensures Yields(buf, 0, v, |buf|) {
      WholeBuffer(buf, e);
    }
  }

  lemma WholeBuffer(buf: Bytes, e: Encoding)
    requires WellFormed(e) && Encode(e) == buf
    ensures Yields(buf, 0, Reading(e), |buf|)
  {
    assert buf[0..0 + |buf|] == buf;
    DecodeInvertsEncode(buf, 0, e);
  }

  // ---------------------------------------------------------------- the decoder, as a cursor

  class CborDecoder {
    const buf: Bytes
    var offset: nat

    constructor (buf: Bytes)
      ensures this.buf == buf && offset == 0
    {
      this.buf := buf;
      offset := 0;
    }

    method ReadBytes(n: nat) returns (r: Result<Bytes, Error>)
      requires offset <= |buf|
      modifies this
      ensures old(offset) <= offset <= |buf|
      ensures match Read(buf, old(offset), n)
              case Ok(d) => r == Ok(d.value) && offset == d.next
              case Err(e) => r == Err(e) && offset == old(offset)
    {
      if offset + n > |buf| {
        return Err(Malformed);
      }
      var out := buf[offset..offset + n];
      offset := offset + n;
      return Ok(out);
    }

    method ReadArgument(info: nat) returns (r: Result<nat, Error>)
      requires offset <= |buf|
      modifies this
      ensures old(offset) <= offset <= |buf|
      ensures match ReadUint(buf, old(offset), info)
              case Ok(d) => r == Ok(d.value) && offset == d.next
              case Err(e) => r == Err(e)
    {
      if info < 24 {
        return Ok(info);
      }
      if info > 27 {
        return Err(Malformed);
      }
      var word := ReadBytes(if info == 24 then 1 else if info == 25 then 2 else if info == 26 then 4 else 8);
      if word.Err? {
        return Err(word.error);
      }
      return Ok(BigEndian(word.value));
    }

    /** Reads one item; on success the offset has moved by at least one and not past the end. */
    method Item() returns (r: Result<Value, Error>)
      requires offset <= |buf|
      modifies this
      ensures old(offset) <= offset <= |buf| && (r.Ok? ==> old(offset) < offset)
      ensures match DecodeItem(buf, old(offset))
              case Ok(d) => r == Ok(d.value) && offset == d.next
              case Err(e) => r == Err(e)
      decreases |buf| - offset, 0
    {
      var first := ReadBytes(1);
      if first.Err? {
        return Err(first.error);
      }
      var major, info := first.value[0] / 32, first.value[0] % 32;
      if major == 0 {
        var u := ReadArgument(info);
        if u.Err? { return Err(u.error); }
        return Ok(Int(AsInt64(u.value)));
      } else if major == 1 {
        var u := ReadArgument(info);
        if u.Err? { return Err(u.error); }
        return Ok(Int(-1 - AsInt64(u.value)));
      } else if major == 2 {
        var ln := ReadArgument(info);
        if ln.Err? { return Err(ln.error); }
        var body := ReadBytes(ln.value);
        if body.Err? { return Err(body.error); }
        return Ok(ByteString(body.value));
      } else if major == 5 {
        var ln := ReadArgument(info);
        if ln.Err? { return Err(ln.error); }
        var out := Pairs(ln.value);
        if out.Err? { return Err(out.error); }
        return Ok(Map(out.value));
      } else {
        return Err(Malformed);
      }
    }

    /** The loop over the `ln` pairs of a map. */
    method Pairs(ln: nat) returns (r: Result<map<int, Value>, Error>)
      requires offset <= |buf|
      modifies this
      ensures old(offset) <= offset <= |buf|
      ensures match DecodeEntries(buf, old(offset), ln, map[])
              case Ok(d) => r == Ok(d.value) && offset == d.next
              case Err(e) => r == Err(e)
      decreases |buf| - offset, 1
    {
      hide DecodeItem;
      var start := offset;
      var out: map<int, Value> := map[];
      var i := 0;
      while i < ln
        invariant 0 <= i <= ln && start <= offset <= |buf|
        invariant DecodeEntries(buf, offset, ln - i, out) == DecodeEntries(buf, start, ln, map[])
      {
        var k := Item();
        if k.Err? { return Err(k.error); }
        if !k.value.Int? { return Err(Malformed); }
        var v := Item();
        if v.Err? { return Err(v.error); }
        out := out[k.value.i := v.value];
        i := i + 1;
      }
      return Ok(out);
    }
  }

  method DecodeCborMap(buf: Bytes) returns (r: Result<map<int, Value>, Error>)
    ensures r == DecodeMap(buf)
  {
    var d := new CborDecoder(buf);
    var v := d.Item();
    if v.Err? {
      return Err(v.error);
    }
    if d.offset != |buf| {
      return Err(Malformed);
    }
    if !v.value.Map? {
      return Err(Malformed);
    }
    return Ok(v.value.fields);
  }

  // ---------------------------------------------------------------- ES256 COSE keys

  datatype PublicKey = PublicKey(x: nat, y: nat)

  function IntField(fields: map<int, Value>, k: int): int {
    if k in fields && fields[k].Int? then fields[k].i else 0
  }

  predicate Is32Bytes(fields: map<int, Value>, k: int) {
    k in fields && fields[k].ByteString? && |fields[k].bytes| == 32
  }

  function ParseES256(fields: map<int, Value>): Result<PublicKey, Error> {
    if IntField(fields, 1) != 2 then Err(UnsupportedKey)
    else if IntField(fields, -1) != 1 then Err(UnsupportedKey)
    else if !Is32Bytes(fields, -2) then Err(Malformed)
    else if !Is32Bytes(fields, -3) then Err(Malformed)
    else Ok(PublicKey(BigEndian(fields[-2].bytes), BigEndian(fields[-3].bytes)))
  }

  function Es256Fields(x: Bytes, y: Bytes): map<int, Value> {
    map[1 := Int(2), 3 := Int(-7), -1 := Int(1), -2 := ByteString(x), -3 := ByteString(y)]
  }

  function Es256Entries(x: Bytes, y: Bytes): Entries {
    Entry(Unsigned(Inline, 1), Unsigned(Inline, 2),
    Entry(Unsigned(Inline, 3), Negative(Inline, 6),
    Entry(Negative(Inline, 0), Unsigned(Inline, 1),
    Entry(Negative(Inline, 1), Octets(Word1, x),
    Entry(Negative(Inline, 2), Octets(Word1, y), NoEntries)))))
  }

  /** Builds the key by appending to a buffer. */
  method CoseKeyES256(x: Bytes, y: Bytes) returns (r: Result<Bytes, Error>)
    ensures r.Ok? <==> |x| == 32 && |y| == 32
    ensures r.Ok? ==> DecodeMap(r.value) == Ok(Es256Fields(x, y))
    ensures r.Ok? ==> ParseES256(Es256Fields(x, y)) == Ok(PublicKey(BigEndian(x), BigEndian(y)))
  {
    if |x| != 32 || |y| != 32 {
      return Err(BadLength);
    }
    var out: Bytes := [0xa5];
    out := out + [0x01, 0x02];
    out := out + [0x03, 0x26];
    out := out + [0x20, 0x01];
    out := out + [0x21, 0x58, 0x20];
    out := out + x;
    out := out + [0x22, 0x58, 0x20];
    out := out + y;
    Es256RoundTrip(x, y, out);
    return Ok(out);
  }

  lemma SmallHead(major: nat, u: nat)
    requires major < 8 && u < 24
    ensures Head(major, Inline, u) == [major * 32 + u]
  {
  }

  lemma CoordinateBytes(b: Bytes)
    requires |b| == 32
    ensures WellFormed(Octets(Word1, b)) && Encode(Octets(Word1, b)) == [0x58, 0x20] + b
  {
    assert Pow256(1) == 256;
    assert ToBytes(32, 1) == ToBytes(0, 0) + [32];
  }

  lemma SmallInt(u: nat)
    requires u < 24
    ensures WellFormed(Unsigned(Inline, u)) && Encode(Unsigned(Inline, u)) == [u]
    ensures WellFormed(Negative(Inline, u)) && Encode(Negative(Inline, u)) == [32 + u]
  {
    SmallHead(0, u);
    SmallHead(1, u);
  }

  lemma EntryBytes(key: Encoding, value: Encoding, rest: Entries, k: Bytes, v: Bytes, r: Bytes)
    requires (key.Unsigned? || key.Negative?) && WellFormed(key) && WellFormed(value) && WellFormedEntries(rest)
    requires Encode(key) == k && Encode(value) == v && EncodeEntries(rest) == r
    ensures WellFormedEntries(Entry(key, value, rest)) && EncodeEntries(Entry(key, value, rest)) == k + v + r
    ensures Count(Entry(key, value, rest)) == 1 + Count(rest)
  {
  }

  lemma Es256Bytes(x: Bytes, y: Bytes)
    requires |x| == 32 && |y| == 32
    ensures WellFormed(Pairs(Inline, Es256Entries(x, y)))
    ensures Encode(Pairs(Inline, Es256Entries(x, y)))
         == [0xa5] + [0x01, 0x02] + [0x03, 0x26] + [0x20, 0x01] + [0x21, 0x58, 0x20] + x + [0x22, 0x58, 0x20] + y
  {
    CoordinateBytes(x);
    CoordinateBytes(y);
    SmallInt(0);
    SmallInt(1);
    SmallInt(2);
    SmallInt(3);
    SmallInt(6);
    SmallHead(5, 5);
    var e5 := Entry(Negative(Inline, 2), Octets(Word1, y), NoEntries);
    var e4 := Entry(Negative(Inline, 1), Octets(Word1, x), e5);
    var e3 := Entry(Negative(Inline, 0), Unsigned(Inline, 1), e4);
    var e2 := Entry(Unsigned(Inline, 3), Negative(Inline, 6), e3);
    EntryBytes(e5.key, e5.value, NoEntries, [0x22], [0x58, 0x20] + y, []);
    EntryBytes(e4.key, e4.value, e5, [0x21], [0x58, 0x20] + x, EncodeEntries(e5));
    EntryBytes(e3.key, e3.value, e4, [0x20], [0x01], EncodeEntries(e4));
    EntryBytes(e2.key, e2.value, e3, [0x03], [0x26], EncodeEntries(e3));
    EntryBytes(Unsigned(Inline, 1), Unsigned(Inline, 2), e2, [0x01], [0x02], EncodeEntries(e2));
    assert Encode(Pairs(Inline, Es256Entries(x, y))) == [0xa5] + EncodeEntries(Es256Entries(x, y));
    Regroup(x, y, EncodeEntries(e4), EncodeEntries(e5));
  }

  lemma Regroup(x: Bytes, y: Bytes, r4: Bytes, r5: Bytes)
    requires r5 == [0x22] + ([0x58, 0x20] + y) + [] && r4 == [0x21] + ([0x58, 0x20] + x) + r5
    ensures [0xa5] + ([0x01] + [0x02] + ([0x03] + [0x26] + ([0x20] + [0x01] + r4)))
         == [0xa5] + [0x01, 0x02] + [0x03, 0x26] + [0x20, 0x01] + [0x21, 0x58, 0x20] + x + [0x22, 0x58, 0x20] + y
  {
  }

  lemma FieldsReadStep(key: Encoding, value: Encoding, rest: Entries, fields: map<int, Value>, k: int, v: Value)
    requires KeyRead(key) == k && Reading(value) == v
    ensures FieldsRead(Entry(key, value, rest), fields) == FieldsRead(rest, fields[k := v])
  {
  }

  lemma Es256Reading(x: Bytes, y: Bytes)
    ensures Reading(Pairs(Inline, Es256Entries(x, y))) == Map(Es256Fields(x, y))
  {
    var e5 := Entry(Negative(Inline, 2), Octets(Word1, y), NoEntries);
    var e4 := Entry(Negative(Inline, 1), Octets(Word1, x), e5);
    var e3 := Entry(Negative(Inline, 0), Unsigned(Inline, 1), e4);
    var e2 := Entry(Unsigned(Inline, 3), Negative(Inline, 6), e3);
    var m1 := map[1 := Int(2)];
    var m2 := m1[3 := Int(-7)];
    var m3 := m2[-1 := Int(1)];
    var m4 := m3[-2 := ByteString(x)];
    var m5 := m4[-3 := ByteString(y)];
    FieldsReadStep(Unsigned(Inline, 1), Unsigned(Inline, 2), e2, map[], 1, Int(2));
    FieldsReadStep(Unsigned(Inline, 3), Negative(Inline, 6), e3, m1, 3, Int(-7));
    FieldsReadStep(Negative(Inline, 0), Unsigned(Inline, 1), e4, m2, -1, Int(1));
    FieldsReadStep(Negative(Inline, 1), Octets(Word1, x), e5, m3, -2, ByteString(x));
    FieldsReadStep(Negative(Inline, 2), Octets(Word1, y), NoEntries, m4, -3, ByteString(y));
    assert FieldsRead(NoEntries, m5) == m5 == Es256Fields(x, y);
    hide FieldsRead;
    assert map[][1 := Int(2)] == m1;
  }

  lemma Es256RoundTrip(x: Bytes, y: Bytes, out: Bytes)
    requires |x| == 32 && |y| == 32
    requires out == [0xa5] + [0x01, 0x02] + [0x03, 0x26] + [0x20, 0x01] + [0x21, 0x58, 0x20] + x + [0x22, 0x58, 0x20] + y
    ensures DecodeMap(out) == Ok(Es256Fields(x, y))
  {
    var e := Pairs(Inline, Es256Entries(x, y));
    Es256Bytes(x, y);
    assert Encode(e) == out;
    WholeBuffer(out, e);
    Es256Reading(x, y);
  }

  /** The coordinates are recovered, not just their numeric values. */
  lemma Es256KeyDeterminesCoordinates(x: Bytes, y: Bytes, x': Bytes, y': Bytes)
    requires |x| == |y| == |x'| == |y'| == 32
    requires ParseES256(Es256Fields(x, y)) == ParseES256(Es256Fields(x', y'))
    ensures x == x' && y == y'
  {
    BigEndianInjective(x, x');
    BigEndianInjective(y, y');
  }

  /** A key that is not EC2 on P-256 is unsupported, whatever its coordinates; missing or mis-sized coordinates of one that is are
      malformed. */
  lemma ParseErrors(fields: map<int, Value>)
    ensures var supported := 1 in fields && fields[1] == Int(2) && -1 in fields && fields[-1] == Int(1);
      && (ParseES256(fields) == Err(UnsupportedKey) <==> !supported)
      && (ParseES256(fields) == Err(Malformed) <==>
            supported && !(&& -2 in fields && fields[-2].ByteString? && |fields[-2].bytes| == 32
                           && -3 in fields && fields[-3].ByteString? && |fields[-3].bytes| == 32))
      && (ParseES256(fields).Err? ==> ParseES256(fields).error in {UnsupportedKey, Malformed})
  {
  }

  /** The parser accepts exactly the maps that agree with an encoded key on the four fields it reads. */
  lemma ParseAcceptsExactlyKeys(fields: map<int, Value>, key: PublicKey)
    ensures ParseES256(fields) == Ok(key) <==>
      exists x: Bytes, y: Bytes ::
        && |x| == 32 && |y| == 32 && key == PublicKey(BigEndian(x), BigEndian(y))
        && forall k :: k in {1, -1, -2, -3} ==> k in fields && fields[k] == Es256Fields(x, y)[k]
  {
    if ParseES256(fields) == Ok(key) {
      var x, y := fields[-2].bytes, fields[-3].bytes;
      assert |x| == 32 && |y| == 32 && key == PublicKey(BigEndian(x), BigEndian(y));
      assert forall k :: k in {1, -1, -2, -3} ==> k in fields && fields[k] == Es256Fields(x, y)[k];
    }
  }
}
