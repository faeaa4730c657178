/**
 * When the decoder returns the value section 3.1 of RFC 8949 gives an encoding.  The decoder converts every
 * integer argument to int64, so it does exactly as long as all of them are below 2^63.
 */
module CborRfc {
  import opened Common
  import opened Cbor

  const INT63: nat := 0x8000_0000_0000_0000

  /** Every integer argument is below 2^63; lengths and counts are not concerned. */
  predicate Small(e: Encoding) {
    match e
    case Unsigned(_, u) => u < INT63
    case Negative(_, u) => u < INT63
    case Octets(_, _) => true
    case Pairs(_, entries) => SmallEntries(entries)
  }

  predicate SmallEntries(es: Entries) {
    match es
    case NoEntries => true
    case Entry(key, value, rest) => Small(key) && Small(value) && SmallEntries(rest)
  }

  /** The keys of a map, as numbers. */
  function KeySet(es: Entries): set<int> {
    match es
    case NoEntries => {}
    case Entry(key, _, rest) => {KeyOf(key)} + KeySet(rest)
  }

  /** No map repeats a key. */
  predicate NoDuplicates(e: Encoding) {
    e.Pairs? ==> NoDuplicateEntries(e.entries)
  }

  predicate NoDuplicateEntries(es: Entries) {
    match es
    case NoEntries => true
    case Entry(key, value, rest) => KeyOf(key) !in KeySet(rest) && NoDuplicates(value) && NoDuplicateEntries(rest)
  }

  // ---------------------------------------------------------------- small arguments read true

  lemma {:induction false} SmallReadsTrue(e: Encoding)
    requires Small(e)
    ensures Reading(e) == Meaning(e) && (e.Unsigned? || e.Negative? ==> KeyRead(e) == KeyOf(e))
    decreases e
  {
    if e.Pairs? {
      SmallEntriesReadTrue(e.entries, map[]);
    }
  }

  lemma {:induction false} SmallEntriesReadTrue(es: Entries, fields: map<int, Value>)
    requires SmallEntries(es)
    ensures FieldsRead(es, fields) == Fields(es, fields)
    decreases es
  {
    match es
    case NoEntries =>
    case Entry(key, value, rest) =>
      SmallReadsTrue(key);
      SmallReadsTrue(value);
      assert KeyRead(key) == KeyOf(key);
      SmallEntriesReadTrue(rest, fields[KeyOf(key) := Meaning(value)]);
  }

  // ---------------------------------------------------------------- and large ones do not

  lemma ArgumentBound(form: Form, u: nat)
    requires Fits(form, u)
    ensures u < 0x1_0000_0000_0000_0000
  {
    assert Pow256(1) == 256 && Pow256(2) == 65536;
    assert Pow256(4) == 0x1_0000_0000;
    assert Pow256(8) == 256 * (256 * (256 * (256 * Pow256(4))));
  }

  lemma {:induction false} KeysOfFields(es: Entries, fields: map<int, Value>)
    ensures Fields(es, fields).Keys == fields.Keys + KeySet(es)
    ensures forall k :: k in fields && k !in KeySet(es) ==> Fields(es, fields)[k] == fields[k]
    decreases es
  {
    match es
    case NoEntries =>
    case Entry(key, value, rest) => KeysOfFields(rest, fields[KeyOf(key) := Meaning(value)]);
  }

  /** Whatever is read has int64 keys, so a field map equal to it has small keys only. */
  lemma {:induction false} KeysReadAreInt64(es: Entries, fields: map<int, Value>)
    requires WellFormedEntries(es) && forall k :: k in fields ==> IsInt64(k)
    ensures forall k :: k in FieldsRead(es, fields) ==> IsInt64(k)
    decreases es
  {
    match es
    case NoEntries =>
    case Entry(key, value, rest) =>
      ArgumentBound(key.form, key.u);
      KeysReadAreInt64(rest, fields[KeyRead(key) := Reading(value)]);
  }

  /** Small keys are read as they are, so reading leaves fields under other keys alone. */
  lemma {:induction false} OtherFieldsStay(es: Entries, fields: map<int, Value>, k: int)
    requires (forall x :: x in KeySet(es) ==> IsInt64(x)) && WellFormedEntries(es) && k in fields && k !in KeySet(es)
    ensures k in FieldsRead(es, fields) && FieldsRead(es, fields)[k] == fields[k]
    decreases es
  {
    match es
    case NoEntries =>
    case Entry(key, value, rest) =>
      assert KeyOf(key) in KeySet(es) && KeyRead(key) == KeyOf(key);
      OtherFieldsStay(rest, fields[KeyRead(key) := Reading(value)], k);
  }

  lemma {:induction false} TrueReadingIsSmall(e: Encoding)
    requires WellFormed(e) && NoDuplicates(e) && Reading(e) == Meaning(e)
    ensures Small(e)
    decreases e
  {
    if e.Pairs? {
      TrueFieldsAreSmall(e.entries, map[]);
    }
  }

  lemma {:induction false} TrueFieldsAreSmall(es: Entries, fields: map<int, Value>)
    requires WellFormedEntries(es) && NoDuplicateEntries(es) && fields.Keys !! KeySet(es)
    requires forall k :: k in fields ==> IsInt64(k)
    requires FieldsRead(es, fields) == Fields(es, fields)
    ensures SmallEntries(es)
    decreases es
  {
    match es
    case NoEntries =>
    case Entry(key, value, rest) =>
      var k := KeyOf(key);
      KeysReadAreInt64(es, fields);
      KeysOfFields(es, fields);
      assert forall x :: x in KeySet(es) ==> x in Fields(es, fields);
      assert k in KeySet(es) && IsInt64(k);
      assert Small(key) && KeyRead(key) == k;
      var read, meant := fields[k := Reading(value)], fields[k := Meaning(value)];
      assert forall x :: x in KeySet(rest) ==> x in KeySet(es);
      OtherFieldsStay(rest, read, k);
      KeysOfFields(rest, meant);
      assert FieldsRead(rest, read)[k] == Reading(value) && Fields(rest, meant)[k] == Meaning(value);
      TrueReadingIsSmall(value);
      TrueFieldsAreSmall(rest, read);
  }

  /** An encoding without repeated keys is read as the value it means if and only if its integer arguments are all below 2^63. */
  lemma ReadsTrueIff(e: Encoding)
    requires WellFormed(e) && NoDuplicates(e)
    ensures Reading(e) == Meaning(e) <==> Small(e)
  {
    if Small(e) {
      SmallReadsTrue(e);
    } else if Reading(e) == Meaning(e) {
      TrueReadingIsSmall(e);
    }
  }

  // ---------------------------------------------------------------- the decoder and the RFC

  /** Every encoding of a value whose integer arguments are below 2^63, wherever it stands, decodes to that value and
      consumes exactly its bytes. */
  lemma DecodesToMeaning(buf: Bytes, o: nat, e: Encoding)
    requires WellFormed(e) && Small(e) && At(buf, o, Encode(e))
    ensures Yields(buf, o, Meaning(e), o + |Encode(e)|)
  {
    hide At, Yields, Encode;
    DecodeInvertsEncode(buf, o, e);
    SmallReadsTrue(e);
  }

  /** For encodings without repeated keys this is exact: a larger argument anywhere, in a key or a value, makes the decoder
      return another value. */
  lemma DecodesToMeaningIff(buf: Bytes, o: nat, e: Encoding)
    requires WellFormed(e) && NoDuplicates(e) && At(buf, o, Encode(e))
    ensures Yields(buf, o, Meaning(e), o + |Encode(e)|) <==> Small(e)
  {
    hide At, Encode, Small, NoDuplicates;
    DecodeInvertsEncode(buf, o, e);
    ReadsTrueIff(e);
  }

  /** The nine bytes of the integer 2^64 - 1 decode to -1, and those of -2^64 to 0. */
  lemma LargestIntegersWrap()
    ensures var word: Bytes := [0xff, 0xff, 0xff, 0xff, 0xff, 0xff, 0xff, 0xff];
      var plus, minus := Unsigned(Word8, 0xffff_ffff_ffff_ffff), Negative(Word8, 0xffff_ffff_ffff_ffff);
      && WellFormed(plus) && Encode(plus) == [0x1b] + word && Meaning(plus) == Int(0xffff_ffff_ffff_ffff)
      && Yields([0x1b] + word, 0, Int(-1), 9)
      && WellFormed(minus) && Encode(minus) == [0x3b] + word && Meaning(minus) == Int(-0x1_0000_0000_0000_0000)
      && Yields([0x3b] + word, 0, Int(0), 9)
  {
    var u := 0xffff_ffff_ffff_ffff;
    var word: Bytes := [0xff, 0xff, 0xff, 0xff, 0xff, 0xff, 0xff, 0xff];
    Word8Fits(u);
    AllOnes();
    hide ToBytes, Pow256;
    WholeBuffer([0x1b] + word, Unsigned(Word8, u));
    WholeBuffer([0x3b] + word, Negative(Word8, u));
  }

  lemma AllOnes()
    ensures ToBytes(0xffff_ffff_ffff_ffff, 8) == [0xff, 0xff, 0xff, 0xff, 0xff, 0xff, 0xff, 0xff]
  {
    assert ToBytes(0xffff_ffff, 4) == [0xff, 0xff, 0xff, 0xff];
    assert ToBytes(0xffff_ffff_ff, 5) == ToBytes(0xffff_ffff, 4) + [0xff];
    assert ToBytes(0xffff_ffff_ffff, 6) == ToBytes(0xffff_ffff_ff, 5) + [0xff];
    assert ToBytes(0xffff_ffff_ffff_ff, 7) == ToBytes(0xffff_ffff_ffff, 6) + [0xff];
  }

  // ---------------------------------------------------------------- every value has an encoding

  predicate IsInt64(i: int) {
    -0x8000_0000_0000_0000 <= i < 0x8000_0000_0000_0000
  }

  /** Values built from int64 integers, byte strings and maps whose sizes fit a 64-bit word. */
  ghost predicate InRange(v: Value) {
    match v
    case Int(i) => IsInt64(i)
    case ByteString(bytes) => |bytes| < 0x1_0000_0000_0000_0000
    case Map(fields) =>
      |fields| < 0x1_0000_0000_0000_0000 && forall k :: k in fields ==> IsInt64(k) && InRange(fields[k])
  }

  lemma Word8Fits(u: nat)
    requires u < 0x1_0000_0000_0000_0000
    ensures Fits(Word8, u)
  {
    assert Pow256(4) == 0x1_0000_0000;
    assert Pow256(8) == 256 * (256 * (256 * (256 * Pow256(4))));
  }

  lemma IntHasEncoding(i: int) returns (e: Encoding)
    requires IsInt64(i)
    ensures WellFormed(e) && Small(e) && Meaning(e) == Int(i) && (e.Unsigned? || e.Negative?)
  {
    if i >= 0 {
      Word8Fits(i);
      e := Unsigned(Word8, i);
    } else {
      Word8Fits(-1 - i);
      e := Negative(Word8, -1 - i);
    }
  }

  lemma {:induction false} ValueHasEncoding(v: Value) returns (e: Encoding)
    requires InRange(v)
    ensures WellFormed(e) && Small(e) && Meaning(e) == v
    decreases v, 1
  {
    match v
    case Int(i) => e := IntHasEncoding(i);
    case ByteString(bytes) =>
      Word8Fits(|bytes|);
      e := Octets(Word8, bytes);
    case Map(fields) =>
      var es := FieldsHaveEncoding(v, fields.Keys, map[]);
      Word8Fits(Count(es));
      e := Pairs(Word8, es);
      assert Fields(es, map[]) == fields;
  }

  lemma MoveField(fields: map<int, Value>, keys: set<int>, done: map<int, Value>, k: int)
    requires keys <= fields.Keys && k in keys && done.Keys !! keys
    ensures done[k := fields[k]] + (map j | j in keys - {k} :: fields[j]) == done + (map j | j in keys :: fields[j])
  {
  }

  lemma {:induction false} FieldsHaveEncoding(v: Value, keys: set<int>, done: map<int, Value>) returns (es: Entries)
    requires v.Map? && InRange(v) && keys <= v.fields.Keys && done.Keys !! keys
    ensures WellFormedEntries(es) && SmallEntries(es) && Count(es) == |keys|
    ensures Fields(es, done) == done + (map k | k in keys :: v.fields[k])
    decreases v, 0, keys
  {
    if keys == {} {
      es := NoEntries;
    } else {
      var k := SomeElement(keys);
      var key := IntHasEncoding(k);
      var value := ValueHasEncoding(v.fields[k]);
      var done' := done[k := v.fields[k]];
      var rest := FieldsHaveEncoding(v, keys - {k}, done');
      es := Entry(key, value, rest);
      MoveField(v.fields, keys, done, k);
    }
  }

  /** Every value of int64 integers, byte strings and integer-keyed maps is decoded from some whole buffer. */
  lemma ValueIsDecoded(v: Value) returns (buf: Bytes)
    requires InRange(v)
    ensures Yields(buf, 0, v, |buf|)
  {
    var e := ValueHasEncoding(v);
    buf := Encode(e);
    assert buf[0..0 + |buf|] == buf;
    hide Encode, Yields;
    DecodesToMeaning(buf, 0, e);
  }
}
