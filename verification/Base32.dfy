/**
 * The hand-written base32 encoder, against the unpadded encoding of section 6 of RFC 4648:
 * the bytes as one bit string, cut into groups of five, the last group filled with zero bits.
 */
module Base32 {
  import opened Common

  type Byte = b: int | 0 <= b < 256
  type Bit = b: int | 0 <= b < 2
  type Quintet = b: int | 0 <= b < 32

  const ALPHABET := "ABCDEFGHIJKLMNOPQRSTUVWXYZ234567"

  // ---------------------------------------------------------------- bits

  function Pow2(n: nat): (p: nat)
    ensures p >= 1
  {
    if n == 0 then 1 else 2 * Pow2(n - 1)
  }

  function Zeros(n: nat): (z: seq<Bit>)
    ensures |z| == n
  {
    seq(n, i => 0)
  }

  /** The number a bit string writes, most significant bit first. */
  function Val(bits: seq<Bit>): nat {
    if bits == [] then 0 else Val(bits[..|bits| - 1]) * 2 + bits[|bits| - 1]
  }

  /** The low `n` bits of `v`. */
  function BitsOf(v: nat, n: nat): (bits: seq<Bit>)
    ensures |bits| == n
  {
    if n == 0 then [] else BitsOf(v / 2, n - 1) + [v % 2]
  }

  lemma {:induction false} BitsOfVal(bits: seq<Bit>)
    ensures BitsOf(Val(bits), |bits|) == bits && Val(bits) < Pow2(|bits|)
  {
    if bits != [] {
      var n := |bits| - 1;
      BitsOfVal(bits[..n]);
      assert Val(bits) / 2 == Val(bits[..n]) && Val(bits) % 2 == bits[n];
      assert bits == bits[..n] + [bits[n]];
    }
  }

  lemma {:induction false} ValOfBits(v: nat, n: nat)
    requires v < Pow2(n)
    ensures Val(BitsOf(v, n)) == v
  {
    if n > 0 {
      ValOfBits(v / 2, n - 1);
      var bits := BitsOf(v, n);
      assert bits[..n - 1] == BitsOf(v / 2, n - 1);
    }
  }

  lemma TwiceShifted(a: nat, p: nat, b: nat)
    ensures (a * p + b) * 2 == a * (2 * p) + b * 2
  {
  }

  /** Appending `k` bits shifts the number left by `k`. */
  lemma {:induction false} ValAppend(a: seq<Bit>, b: seq<Bit>)
    ensures Val(a + b) == Val(a) * Pow2(|b|) + Val(b)
  {
    if b == [] {
      assert a + b == a;
    } else {
      var n := |b| - 1;
      ValAppend(a, b[..n]);
      assert (a + b)[..|a + b| - 1] == a + b[..n] && (a + b)[|a + b| - 1] == b[n];
      assert Val(a + b) == Val(a + b[..n]) * 2 + b[n] && Val(b) == Val(b[..n]) * 2 + b[n] && Pow2(n + 1) == 2 * Pow2(n);
      hide Val, Pow2;
      TwiceShifted(Val(a), Pow2(n), Val(b[..n]));
    }
  }

  // ---------------------------------------------------------------- the specification

  function Bits(bytes: seq<Byte>): seq<Bit> {
    if bytes == [] then [] else Bits(bytes[..|bytes| - 1]) + BitsOf(bytes[|bytes| - 1], 8)
  }

  lemma Pow2Small()
    ensures Pow2(5) == 32 && Pow2(8) == 256
  {
    assert Pow2(4) == 16;
  }

  function GroupVal(bits: seq<Bit>): Quintet
    requires |bits| == 5
  {
    BitsOfVal(bits);
    Pow2Small();
    Val(bits)
  }

  /** The five-bit groups of a bit string; zero bits complete the last one. */
  function Groups(bits: seq<Bit>): seq<Quintet>
    decreases |bits|
  {
    if bits == [] then []
    else if |bits| < 5 then [GroupVal(bits + Zeros(5 - |bits|))]
    else [GroupVal(bits[..5])] + Groups(bits[5..])
  }

  function Symbols(groups: seq<Quintet>): string {
    seq(|groups|, i requires 0 <= i < |groups| => ALPHABET[groups[i]])
  }

  /** The unpadded encoding of RFC 4648, section 6. */
  function Rfc4648(bytes: seq<Byte>): string {
    Symbols(Groups(Bits(bytes)))
  }

  function CeilDiv(a: nat, b: nat): nat
    requires b > 0
  {
    (a + b - 1) / b
  }

  // ---------------------------------------------------------------- groups of concatenations

  lemma {:induction false} BitsSize(bytes: seq<Byte>)
    ensures |Bits(bytes)| == 8 * |bytes|
  {
    if bytes != [] {
      BitsSize(bytes[..|bytes| - 1]);
    }
  }

  lemma {:induction false} BitsAppend(a: seq<Byte>, b: seq<Byte>)
    ensures Bits(a + b) == Bits(a) + Bits(b)
  {
    hide BitsOf, Val, Pow2;
    if b == [] {
      assert a + b == a;
    } else {
      var init, last := b[..|b| - 1], BitsOf(b[|b| - 1], 8);
      BitsAppend(a, init);
      assert (a + b)[..|a + b| - 1] == a + init && (a + b)[|a + b| - 1] == b[|b| - 1];
      assert Bits(a + b) == Bits(a + init) + last && Bits(b) == Bits(init) + last;
      hide Bits;
      assert Bits(a) + Bits(init) + last == Bits(a) + (Bits(init) + last);
    }
  }

  lemma {:induction false} GroupsSize(bits: seq<Bit>)
    ensures |Groups(bits)| == CeilDiv(|bits|, 5)
    decreases |bits|
  {
    if |bits| >= 5 {
      GroupsSize(bits[5..]);
    }
  }

  lemma {:induction false} GroupsAppend(a: seq<Bit>, b: seq<Bit>)
    requires |a| % 5 == 0
    ensures Groups(a + b) == Groups(a) + Groups(b)
    decreases |a|
  {
    if a == [] {
      assert a + b == b;
    } else {
      hide GroupVal, Val, Pow2;
      GroupsAppend(a[5..], b);
      assert (a + b)[5..] == a[5..] + b;
      assert (a + b)[..5] == a[..5];
      assert Groups(a + b) == [GroupVal(a[..5])] + Groups(a[5..] + b) && Groups(a) == [GroupVal(a[..5])] + Groups(a[5..]);
      hide Groups;
      assert [GroupVal(a[..5])] + (Groups(a[5..]) + Groups(b)) == [GroupVal(a[..5])] + Groups(a[5..]) + Groups(b);
    }
  }

  /** Zero bits at the end only add groups at the end. */
  lemma {:induction false} GroupsOfZeroFilled(bits: seq<Bit>, k: nat)
    ensures |Groups(bits)| <= |Groups(bits + Zeros(k))|
    ensures Groups(bits + Zeros(k))[..|Groups(bits)|] == Groups(bits)
    decreases |bits|
  {
    var filled := bits + Zeros(k);
    GroupsSize(bits);
    GroupsSize(filled);
    if bits == [] {
    } else if |bits| < 5 {
      if |filled| >= 5 {
        assert filled[..5] == bits + Zeros(5 - |bits|);
      } else {
        assert filled + Zeros(5 - |filled|) == bits + Zeros(5 - |bits|);
      }
    } else {
      GroupsOfZeroFilled(bits[5..], k);
      assert filled[5..] == bits[5..] + Zeros(k) && filled[..5] == bits[..5];
    }
  }

  // ---------------------------------------------------------------- digits of a packed chunk

  /** The `m` low base-32 digits of `v`. */
  function Digits(v: nat, m: nat): (d: seq<Quintet>)
    ensures |d| == m
  {
    if m == 0 then [] else Digits(v / 32, m - 1) + [v % 32]
  }

  lemma {:induction false} GroupsAreDigits(bits: seq<Bit>, m: nat)
    requires |bits| == 5 * m
    ensures Groups(bits) == Digits(Val(bits), m)
  {
    if m > 0 {
      hide Pow2, Val, BitsOf;
      var init, last := bits[..5 * (m - 1)], bits[5 * (m - 1)..];
      GroupsAreDigits(init, m - 1);
      GroupsAppend(init, last);
      assert bits == init + last;
      assert Groups(last) == [GroupVal(last)] by {
        assert last[..5] == last && last[5..] == [];
      }
      ValAppend(init, last);
      Pow2Small();
      assert Val(bits) == Val(init) * 32 + GroupVal(last);
    }
  }

  function Pack(bytes: seq<Byte>): nat {
    if bytes == [] then 0 else Pack(bytes[..|bytes| - 1]) * 256 + bytes[|bytes| - 1]
  }

  lemma {:induction false} PackIsVal(bytes: seq<Byte>)
    ensures Pack(bytes) == Val(Bits(bytes))
  {
    if bytes != [] {
      var n := |bytes| - 1;
      PackIsVal(bytes[..n]);
      ValAppend(Bits(bytes[..n]), BitsOf(bytes[n], 8));
      Pow2Small();
      ValOfBits(bytes[n], 8);
    }
  }

  lemma ChunkGroups(chunk: seq<Byte>)
    requires |chunk| == 5
    ensures Groups(Bits(chunk)) == Digits(Pack(chunk), 8)
  {
    BitsSize(chunk);
    PackIsVal(chunk);
    GroupsAreDigits(Bits(chunk), 8);
  }

  // ---------------------------------------------------------------- the encoder

  /** `v >> (5 * k)` */
  function ShiftRight(v: nat, k: nat): nat {
    if k == 0 then v else ShiftRight(v, k - 1) / 32
  }

  /** Packs a chunk into one integer; five bytes stay below 2^40, so nothing wraps in a 64-bit word. */
  method PackChunk(chunk: seq<Byte>) returns (v: nat)
    requires |chunk| == 5
    ensures v == Pack(chunk) && v < 0x100_0000_0000
  {
    v := 0;
    var j := 0;
    while j < 5
      invariant 0 <= j <= 5 && v == Pack(chunk[..j])
      invariant v < if j == 0 then 1 else if j == 1 then 0x100 else if j == 2 then 0x1_0000 else if j == 3 then 0x100_0000
                    else if j == 4 then 0x1_0000_0000 else 0x100_0000_0000
    {
      assert chunk[..j + 1][..j] == chunk[..j];
      v := v * 256 + chunk[j];
      j := j + 1;
    }
    assert chunk[..5] == chunk;
  }

  /** Emits eight symbols, most significant first. */
  method EmitChunk(v: nat) returns (out: string)
    ensures out == Symbols(Digits(v, 8))
  {
    out := "";
    var k := 8;
    ghost var digits: seq<Quintet> := [];
    while k > 0
      invariant 0 <= k <= 8
      invariant digits == Digits(ShiftRight(v, k), 8 - k)
      invariant out == Symbols(digits)
    {
      k := k - 1;
      var idx: Quintet := ShiftRight(v, k) % 32;
      SymbolsAppend(digits, [idx]);
      digits := digits + [idx];
      out := out + [ALPHABET[idx]];
    }
  }

  lemma SymbolsAppend(a: seq<Quintet>, b: seq<Quintet>)
    ensures Symbols(a + b) == Symbols(a) + Symbols(b)
  {
  }

  function Trimmed(n: nat): nat {
    match n % 5 case 1 => 6 case 2 => 4 case 3 => 3 case 4 => 1 case _ => 0
  }

  /** The bytes up to `i`, zero-filled beyond the end. */
  function Filled(b: seq<Byte>, i: nat): seq<Byte> {
    if i <= |b| then b[..i] else b + seq(i - |b|, j => 0)
  }

  lemma {:induction false} BitsOfZeros(k: nat)
    ensures Bits(seq(k, j => 0)) == Zeros(8 * k)
  {
    if k > 0 {
      var zeros: seq<Byte> := seq(k, j => 0);
      assert zeros[..k - 1] == seq(k - 1, j => 0);
      BitsOfZeros(k - 1);
      assert BitsOf(0, 8) == Zeros(8) by {
        assert BitsOf(0, 4) == Zeros(4);
      }
    }
  }

  lemma TrimmedIsRfc(b: seq<Byte>, i: nat)
    requires i % 5 == 0 && |b| <= i < |b| + 5
    ensures var all := Symbols(Groups(Bits(Filled(b, i))));
      && |all| == 8 * (i / 5) && Trimmed(|b|) <= |all|
      && all[..|all| - Trimmed(|b|)] == Rfc4648(b)
      && |Rfc4648(b)| == CeilDiv(8 * |b|, 5)
  {
    var k := i - |b|;
    var bits, n := Bits(b), |b|;
    assert Filled(b, i) == b + seq(k, j => 0);
    BitsAppend(b, seq(k, j => 0));
    BitsOfZeros(k);
    BitsSize(b);
    GroupsSize(bits);
    GroupsSize(bits + Zeros(8 * k));
    GroupsOfZeroFilled(bits, 8 * k);
    GroupCounts(n, i);
    PrefixOfSymbols(Groups(bits + Zeros(8 * k)), |Groups(bits)|);
  }

  lemma GroupCounts(n: nat, i: nat)
    requires i % 5 == 0 && n <= i < n + 5
    ensures CeilDiv(8 * i, 5) == 8 * (i / 5) && CeilDiv(8 * n, 5) + Trimmed(n) == 8 * (i / 5)
  {
  }

  lemma PrefixOfSymbols(groups: seq<Quintet>, n: nat)
    requires n <= |groups|
    ensures Symbols(groups)[..n] == Symbols(groups[..n])
  {
  }

  lemma FilledSize(b: seq<Byte>, i: nat)
    ensures |Filled(b, i)| == i
  {
  }

  lemma ChunkStep(b: seq<Byte>, i: nat, chunk: seq<Byte>)
    requires i < |b| && i % 5 == 0
    requires chunk == if i + 5 <= |b| then b[i..i + 5] else b[i..] + seq(i + 5 - |b|, j => 0)
    ensures Symbols(Groups(Bits(Filled(b, i + 5)))) == Symbols(Groups(Bits(Filled(b, i)))) + Symbols(Digits(Pack(chunk), 8))
  {
    hide Groups, Bits, Symbols, Pack, Digits, Filled, Val, Pow2, BitsOf, GroupVal;
    assert |chunk| == 5;
    FilledSize(b, i);
    ChunkGroups(chunk);
    BitsSize(Filled(b, i));
    BitsAppend(Filled(b, i), chunk);
    GroupsAppend(Bits(Filled(b, i)), Bits(chunk));
    SymbolsAppend(Groups(Bits(Filled(b, i))), Groups(Bits(chunk)));
    FilledStep(b, i, chunk);
  }

  lemma FilledStep(b: seq<Byte>, i: nat, chunk: seq<Byte>)
    requires i < |b| && chunk == if i + 5 <= |b| then b[i..i + 5] else b[i..] + seq(i + 5 - |b|, j => 0)
    ensures Filled(b, i + 5) == Filled(b, i) + chunk
  {
  }

  lemma StartsEmpty(b: seq<Byte>)
    ensures Symbols(Groups(Bits(Filled(b, 0)))) == ""
  {
    assert Filled(b, 0) == [];
  }

  /** The encoder computes the RFC's unpadded encoding, of exactly ceil(8n/5) characters. */
  method Base32StdEncodeNoPad(b: seq<Byte>) returns (out: string)
    ensures out == Rfc4648(b)
    ensures |out| == CeilDiv(8 * |b|, 5)
  {
    hide Groups, Bits, Symbols, Pack, Digits, Rfc4648, CeilDiv, Trimmed;
    StartsEmpty(b);
    out := "";
    var i := 0;
    while i < |b|
      invariant 0 <= i < |b| + 5 && i % 5 == 0
      invariant out == Symbols(Groups(Bits(Filled(b, i))))
    {
      var chunk := if i + 5 <= |b| then b[i..i + 5] else b[i..] + seq(i + 5 - |b|, j => 0);
      var v := PackChunk(chunk);
      var symbols := EmitChunk(v);
      ChunkStep(b, i, chunk);
      out := out + symbols;
      i := i + 5;
    }
    TrimmedIsRfc(b, i);
    out := out[..|out| - Trimmed(|b|)];
  }

  // ---------------------------------------------------------------- the matching decoder

  /** The position of a symbol in the alphabet, from `k` on. */
  function IndexFrom(c: char, k: nat): (r: Option<Quintet>)
    requires k <= 32
    ensures r.Some? ==> k <= r.value && ALPHABET[r.value] == c
    decreases 32 - k
  {
    if k == 32 then None else if ALPHABET[k] == c then Some(k) else IndexFrom(c, k + 1)
  }

  function SymbolBits(s: string): Option<seq<Bit>> {
    if s == "" then Some([])
    else
      var init, last := SymbolBits(s[..|s| - 1]), IndexFrom(s[|s| - 1], 0);
      if init.None? || last.None? then None else Some(init.value + BitsOf(last.value, 5))
  }

  function BytesOf(bits: seq<Bit>): seq<Byte>
    decreases |bits|
  {
    if |bits| < 8 then []
    else
      BitsOfVal(bits[..8]);
      Pow2Small();
      [Val(bits[..8])] + BytesOf(bits[8..])
  }

  /** Collects the bits of the symbols and drops those that do not fill a byte. */
  function Decode(s: string): Option<seq<Byte>> {
    match SymbolBits(s)
    case None => None
    case Some(bits) => Some(BytesOf(bits))
  }

  lemma {:induction false} IndexOfSymbol(q: Quintet, k: nat)
    requires k <= q
    ensures IndexFrom(ALPHABET[q], k) == Some(q)
    decreases q - k
  {
    AlphabetDistinct();
    if k < q {
      IndexOfSymbol(q, k + 1);
    }
  }

  lemma AlphabetDistinct()
    ensures |ALPHABET| == 32 && forall i, j :: 0 <= i < j < 32 ==> ALPHABET[i] != ALPHABET[j]
  {
  }

  lemma {:induction false} SymbolBitsOfGroups(groups: seq<Quintet>, bits: seq<Bit>)
    requires |bits| == 5 * |groups| && Groups(bits) == groups
    ensures SymbolBits(Symbols(groups)) == Some(bits)
  {
    if groups != [] {
      var n := |groups| - 1;
      var init, last := bits[..5 * n], bits[5 * n..];
      assert bits == init + last;
      GroupsAppend(init, last);
      GroupsSize(init);
      assert Groups(last) == [GroupVal(last)] by {
        assert last[..5] == last && last[5..] == [];
      }
      SymbolBitsOfGroups(groups[..n], init);
      assert Symbols(groups)[..n] == Symbols(groups[..n]);
      IndexOfSymbol(groups[n], 0);
      BitsOfVal(last);
    }
  }

  lemma {:induction false} BytesOfBits(b: seq<Byte>, tail: seq<Bit>)
    requires |tail| < 8
    ensures BytesOf(Bits(b) + tail) == b
    decreases |b|
  {
    BitsSize(b);
    if b != [] {
      BytesOfBits(b[1..], tail);
      FirstByte(b, tail);
    }
  }

  lemma FirstByte(b: seq<Byte>, tail: seq<Bit>)
    requires b != []
    ensures BytesOf(Bits(b) + tail) == [b[0]] + BytesOf(Bits(b[1..]) + tail)
  {
    hide Pow2, Val, Bits, BitsOf;
    var bits := Bits(b) + tail;
    BitsAppend(b[..1], b[1..]);
    assert b == b[..1] + b[1..];
    BitsOfOneByte(b[0]);
    assert b[..1] == [b[0]];
    Pow2Small();
    ValOfBits(b[0], 8);
    BitsSize(b);
    assert bits[..8] == BitsOf(b[0], 8) && bits[8..] == Bits(b[1..]) + tail;
  }

  lemma BitsOfOneByte(x: Byte)
    ensures Bits([x]) == BitsOf(x, 8)
  {
    assert [x][..0] == [];
  }

  /** The groups of a bit string are the groups of its zero completion. */
  lemma GroupsOfCompletion(bits: seq<Bit>) returns (pad: nat)
    ensures pad < 5 && (|bits| + pad) % 5 == 0 && Groups(bits + Zeros(pad)) == Groups(bits)
  {
    pad := 5 * CeilDiv(|bits|, 5) - |bits|;
    GroupsOfZeroFilled(bits, pad);
    GroupsSize(bits);
    GroupsSize(bits + Zeros(pad));
  }

  lemma DecodeInvertsRfc(b: seq<Byte>)
    ensures Decode(Rfc4648(b)) == Some(b)
  {
    var pad := GroupsOfCompletion(Bits(b));
    var bits := Bits(b) + Zeros(pad);
    GroupsSize(bits);
    SymbolBitsOfGroups(Groups(bits), bits);
    BytesOfBits(b, Zeros(pad));
  }

  /** Distinct byte strings have distinct encodings. */
  lemma Rfc4648Injective(a: seq<Byte>, b: seq<Byte>)
    requires Rfc4648(a) == Rfc4648(b)
    ensures a == b
  {
    DecodeInvertsRfc(a);
    DecodeInvertsRfc(b);
  }

  // ---------------------------------------------------------------- the letters themselves

  /** The symbols of RFC 4648 section 6. */
  lemma Base32Alphabet(q: Quintet)
    ensures ALPHABET[q] == if q < 26 then ('A' as int + q) as char else ('2' as int + (q - 26)) as char
  {
  }
}
