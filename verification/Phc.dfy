/**
 * The PHC string of an Argon2id hash: printing, and the parser that has to undo it.
 */
module Phc {
  import opened Common

  type Byte = b: int | 0 <= b < 256
  type Bytes = seq<Byte>

  // ---------------------------------------------------------------- split and join

  function Split(s: string, c: char): (parts: seq<string>)
    ensures |parts| >= 1
    decreases |s|
  {
    if c !in s then [s]
    else
      var i := IndexOf(s, c);
      [s[..i]] + Split(s[i + 1..], c)
  }

  /** The first position of `c`. */
  function IndexOf(s: string, c: char): (i: nat)
    requires c in s
    ensures i < |s| && s[i] == c && c !in s[..i]
  {
    if s[0] == c then 0 else 1 + IndexOf(s[1..], c)
  }

  lemma FirstSeparator(head: string, rest: string, c: char)
    requires c !in head
    ensures c in head + [c] + rest && IndexOf(head + [c] + rest, c) == |head|
  {
    var s := head + [c] + rest;
    assert s[|head|] == c;
    var i := IndexOf(s, c);
    assert forall j :: 0 <= j < |head| ==> s[j] == head[j];
    assert forall j :: 0 <= j < i ==> s[..i][j] == s[j] && s[j] != c;
  }

  lemma SplitNone(s: string, c: char)
    requires c !in s
    ensures Split(s, c) == [s]
  {
  }

  /** Splitting undoes one join. */
  lemma SplitStep(head: string, rest: string, c: char)
    requires c !in head
    ensures Split(head + [c] + rest, c) == [head] + Split(rest, c)
  {
    FirstSeparator(head, rest, c);
    var s := head + [c] + rest;
    assert s[..|head|] == head && s[|head| + 1..] == rest;
  }

  // ---------------------------------------------------------------- decimal numbers

  predicate IsDigit(c: char) { '0' <= c <= '9' }

  function PrintNat(n: nat): (s: string)
    ensures s != "" && forall c :: c in s ==> IsDigit(c)
  {
    var last := '0' + (n % 10) as char;
    if n < 10 then [last] else PrintNat(n / 10) + [last]
  }

  function DigitsVal(s: string): nat
    requires forall c :: c in s ==> IsDigit(c)
  {
    if s == "" then 0
    else
      var last := s[|s| - 1];
      assert IsDigit(last);
      DigitsVal(s[..|s| - 1]) * 10 + (last as int - '0' as int)
  }

  lemma {:induction false} DigitsOfPrinted(n: nat)
    ensures DigitsVal(PrintNat(n)) == n
  {
    var s := PrintNat(n);
    if n >= 10 {
      DigitsOfPrinted(n / 10);
      assert s[..|s| - 1] == PrintNat(n / 10);
    } else {
      assert s[..0] == "";
    }
  }

  predicate AllDigits(s: string) {
    s != "" && forall c :: c in s ==> IsDigit(c)
  }

  /** Unsigned decimal below 2^32. */
  function ParseUint32(s: string): Option<nat> {
    if AllDigits(s) && DigitsVal(s) < 0x1_0000_0000 then Some(DigitsVal(s)) else None
  }

  function SignedVal(negative: bool, s: string): int
    requires AllDigits(s)
  {
    if negative then 0 - DigitsVal(s) else DigitsVal(s)
  }

  /** Signed decimal; the range of a 64-bit int does not matter to the one value accepted. */
  function Atoi(s: string): Option<int> {
    if AllDigits(s) then Some(SignedVal(false, s))
    else if s != "" && s[0] == '+' && AllDigits(s[1..]) then Some(SignedVal(false, s[1..]))
    else if s != "" && s[0] == '-' && AllDigits(s[1..]) then Some(SignedVal(true, s[1..]))
    else None
  }

  // ---------------------------------------------------------------- unpadded base64

  type Sextet = b: int | 0 <= b < 64

  function Symbol(v: Sextet): char {
    if v < 26 then ('A' as int + v) as char
    else if v < 52 then ('a' as int + (v - 26)) as char
    else if v < 62 then ('0' as int + (v - 52)) as char
    else if v == 62 then '+' else '/'
  }

  function SymbolIndex(c: char): Option<Sextet> {
    if 'A' <= c <= 'Z' then Some(c as int - 'A' as int)
    else if 'a' <= c <= 'z' then Some(c as int - 'a' as int + 26)
    else if '0' <= c <= '9' then Some(c as int - '0' as int + 52)
    else if c == '+' then Some(62)
    else if c == '/' then Some(63)
    else None
  }

  lemma SymbolRoundTrip(v: Sextet)
    ensures SymbolIndex(Symbol(v)) == Some(v)
  {
  }

  // The four symbols of three bytes, and the three bytes of four symbols.
  function S0(a: Byte): Sextet { a / 4 }
  function S1(a: Byte, b: Byte): Sextet { a % 4 * 16 + b / 16 }
  function S2(b: Byte, c: Byte): Sextet { b % 16 * 4 + c / 64 }
  function S3(c: Byte): Sextet { c % 64 }
  function B0(p: Sextet, q: Sextet): Byte { p * 4 + q / 16 }
  function B1(q: Sextet, r: Sextet): Byte { q % 16 * 16 + r / 4 }
  function B2(r: Sextet, s: Sextet): Byte { r % 4 * 64 + s }

  lemma QuantumRoundTrip(a: Byte, b: Byte, c: Byte)
    ensures B0(S0(a), S1(a, b)) == a && B1(S1(a, b), S2(b, c)) == b && B2(S2(b, c), S3(c)) == c
  {
  }

  /** The symbol values of a byte string; missing bytes of the last group count as zero. */
  function ToSextets(b: Bytes): seq<Sextet> {
    if |b| == 0 then []
    else if |b| == 1 then [S0(b[0]), S1(b[0], 0)]
    else if |b| == 2 then [S0(b[0]), S1(b[0], b[1]), S2(b[1], 0)]
    else [S0(b[0]), S1(b[0], b[1]), S2(b[1], b[2]), S3(b[2])] + ToSextets(b[3..])
  }

  function Base64(b: Bytes): string {
    var v := ToSextets(b);
    seq(|v|, i requires 0 <= i < |v| => Symbol(v[i]))
  }

  predicate IsNewline(c: char) { c == '\r' || c == '\n' }

  /** The symbol values; line breaks are skipped, anything else foreign is an error. */
  function Sextets(s: string): Option<seq<Sextet>> {
    if s == "" then Some([])
    else if IsNewline(s[0]) then Sextets(s[1..])
    else
      var v, rest := SymbolIndex(s[0]), Sextets(s[1..]);
      if v.None? || rest.None? then None else Some([v.value] + rest.value)
  }

  /** Bits that do not fill a byte are dropped; a lone trailing symbol is an error. */
  function FromSextets(v: seq<Sextet>): Option<Bytes> {
    if |v| == 0 then Some([])
    else if |v| == 1 then None
    else if |v| == 2 then Some([B0(v[0], v[1])])
    else if |v| == 3 then Some([B0(v[0], v[1]), B1(v[1], v[2])])
    else match FromSextets(v[4..])
      case None => None
      case Some(rest) => Some([B0(v[0], v[1]), B1(v[1], v[2]), B2(v[2], v[3])] + rest)
  }

  function Base64Decode(s: string): Option<Bytes> {
    match Sextets(s)
    case None => None
    case Some(v) => FromSextets(v)
  }

  lemma {:induction false} SextetsOfSymbols(s: string, v: seq<Sextet>)
    requires |s| == |v| && forall i :: 0 <= i < |s| ==> s[i] == Symbol(v[i])
    ensures Sextets(s) == Some(v)
  {
    if s != "" {
      SextetsOfSymbols(s[1..], v[1..]);
      SymbolRoundTrip(v[0]);
      assert v == [v[0]] + v[1..];
    }
  }

  lemma {:induction false} FromToSextets(b: Bytes)
    ensures FromSextets(ToSextets(b)) == Some(b)
  {
    if |b| >= 3 {
      FromToSextets(b[3..]);
      FullGroup(b);
    } else if |b| == 2 {
      GroupOfTwo(b);
    } else if |b| == 1 {
      GroupOfOne(b);
    }
  }

  lemma GroupOfOne(b: Bytes)
    requires |b| == 1
    ensures FromSextets(ToSextets(b)) == Some(b)
  {
    hide S0, S1, S2, S3, B0, B1, B2;
    QuantumRoundTrip(b[0], 0, 0);
    assert b == [b[0]];
  }

  lemma GroupOfTwo(b: Bytes)
    requires |b| == 2
    ensures FromSextets(ToSextets(b)) == Some(b)
  {
    hide S0, S1, S2, S3, B0, B1, B2;
    QuantumRoundTrip(b[0], b[1], 0);
    assert b == [b[0], b[1]];
  }

  lemma GroupStep(p: Sextet, q: Sextet, r: Sextet, s: Sextet, v: seq<Sextet>, rest: Bytes)
    requires FromSextets(v) == Some(rest)
    ensures FromSextets([p, q, r, s] + v) == Some([B0(p, q), B1(q, r), B2(r, s)] + rest)
  {
    hide B0, B1, B2;
    assert ([p, q, r, s] + v)[4..] == v;
  }

  lemma ThreeAndRest(b: Bytes)
    requires |b| >= 3
    ensures b == [b[0], b[1], b[2]] + b[3..]
  {
  }

  lemma ToSextetsStep(b: Bytes)
    requires |b| >= 3
    ensures ToSextets(b) == [S0(b[0]), S1(b[0], b[1]), S2(b[1], b[2]), S3(b[2])] + ToSextets(b[3..])
  {
    hide S0, S1, S2, S3;
  }

  lemma FullGroup(b: Bytes)
    requires |b| >= 3 && FromSextets(ToSextets(b[3..])) == Some(b[3..])
    ensures FromSextets(ToSextets(b)) == Some(b)
  {
    hide S0, S1, S2, S3, B0, B1, B2, FromSextets, ToSextets;
    QuantumRoundTrip(b[0], b[1], b[2]);
    ToSextetsStep(b);
    GroupStep(S0(b[0]), S1(b[0], b[1]), S2(b[1], b[2]), S3(b[2]), ToSextets(b[3..]), b[3..]);
    ThreeAndRest(b);
  }

  lemma Base64RoundTrip(b: Bytes)
    ensures Base64Decode(Base64(b)) == Some(b)
  {
    SextetsOfSymbols(Base64(b), ToSextets(b));
    FromToSextets(b);
  }

  lemma Base64HasNoDollar(b: Bytes)
    ensures '$' !in Base64(b)
  {
    forall i | 0 <= i < |Base64(b)| ensures Base64(b)[i] != '$' {
      SymbolRoundTrip(ToSextets(b)[i]);
    }
  }

  // ---------------------------------------------------------------- PHC strings

  datatype Params = Params(memoryKiB: nat, timeCost: nat, parallelism: nat)

  const ARGON2ID_FLOOR := Params(19456, 2, 1)

  datatype Error =
    | MalformedPhc | UnsupportedVariant | MissingVersion | UnsupportedVersion
    | MalformedParam | NonIntegerParam | UnknownParam | MissingParam | SaltDecode | HashDecode

  datatype Phc = Phc(params: Params, salt: Bytes, key: Bytes)

  function Setting(name: char, n: nat): string {
    [name] + "=" + PrintNat(n)
  }

  function ParamsSegment(p: Params): string {
    Setting('m', p.memoryKiB) + "," + (Setting('t', p.timeCost) + "," + Setting('p', p.parallelism))
  }

  /** The printed form at given parameters. */
  function Render(p: Params, salt: Bytes, key: Bytes): string {
    "" + "$" + ("argon2id" + "$" + (("v=" + PrintNat(19)) + "$" + (ParamsSegment(p) + "$" + (Base64(salt) + "$" + Base64(key)))))
  }

  function EncodePhc(salt: Bytes, key: Bytes): string {
    Render(ARGON2ID_FLOOR, salt, key)
  }

  /** One `key=value` pair; a parallelism is cut to eight bits. */
  function SetParam(p: Params, kv: string): Result<Params, Error> {
    if '=' !in kv then Err(MalformedParam)
    else
      var eq := IndexOf(kv, '=');
      var key, val := kv[..eq], ParseUint32(kv[eq + 1..]);
      if val.None? then Err(NonIntegerParam)
      else if key == "m" then Ok(p.(memoryKiB := val.value))
      else if key == "t" then Ok(p.(timeCost := val.value))
      else if key == "p" then Ok(p.(parallelism := val.value % 256))
      else Err(UnknownParam)
  }

  function SetParams(p: Params, kvs: seq<string>): Result<Params, Error>
    decreases |kvs|
  {
    if kvs == [] then Ok(p)
    else match SetParam(p, kvs[0])
      case Err(e) => Err(e)
      case Ok(p') => SetParams(p', kvs[1..])
  }

  function Finish(p: Params, salt: string, key: string): Result<Phc, Error> {
    if p.memoryKiB == 0 || p.timeCost == 0 || p.parallelism == 0 then Err(MissingParam)
    else if Base64Decode(salt).None? then Err(SaltDecode)
    else if Base64Decode(key).None? then Err(HashDecode)
    else Ok(Phc(p, Base64Decode(salt).value, Base64Decode(key).value))
  }

  function VersionError(segment: string): Option<Error> {
    if !("v=" <= segment) then Some(MissingVersion)
    else if Atoi(segment[2..]) != Some(19) then Some(UnsupportedVersion)
    else None
  }

  function ParsePhc(phc: string): Result<Phc, Error> {
    var parts := Split(phc, '$');
    if |parts| != 6 || parts[0] != "" then Err(MalformedPhc)
    else if parts[1] != "argon2id" then Err(UnsupportedVariant)
    else if VersionError(parts[2]).Some? then Err(VersionError(parts[2]).value)
    else match SetParams(Params(0, 0, 0), Split(parts[3], ','))
      case Err(e) => Err(e)
      case Ok(p) => Finish(p, parts[4], parts[5])
  }

  /** The parser, with its loop over the parameters. */
  method DecodePhc(phc: string) returns (r: Result<Phc, Error>)
    ensures r == ParsePhc(phc)
  {
    var parts := Split(phc, '$');
    if |parts| != 6 || parts[0] != "" {
      return Err(MalformedPhc);
    }
    if parts[1] != "argon2id" {
      return Err(UnsupportedVariant);
    }
    if !("v=" <= parts[2]) {
      return Err(MissingVersion);
    }
    if Atoi(parts[2][2..]) != Some(19) {
      return Err(UnsupportedVersion);
    }
    var params := Params(0, 0, 0);
    var kvs := Split(parts[3], ',');
    assert kvs[0..] == kvs;
    var i := 0;
    while i < |kvs|
      invariant 0 <= i <= |kvs|
      invariant SetParams(Params(0, 0, 0), kvs) == SetParams(params, kvs[i..])
    {
      var kv := kvs[i];
      assert kvs[i..][1..] == kvs[i + 1..];
      if '=' !in kv {
        return Err(MalformedParam);
      }
      var eq := IndexOf(kv, '=');
      var key := kv[..eq];
      var n := ParseUint32(kv[eq + 1..]);
      if n.None? {
        return Err(NonIntegerParam);
      }
      if key == "m" {
        params := params.(memoryKiB := n.value);
      } else if key == "t" {
        params := params.(timeCost := n.value);
      } else if key == "p" {
        params := params.(parallelism := n.value % 256);
      } else {
        return Err(UnknownParam);
      }
      i := i + 1;
    }
    if params.memoryKiB == 0 || params.timeCost == 0 || params.parallelism == 0 {
      return Err(MissingParam);
    }
    var salt := Base64Decode(parts[4]);
    if salt.None? {
      return Err(SaltDecode);
    }
    var key := Base64Decode(parts[5]);
    if key.None? {
      return Err(HashDecode);
    }
    return Ok(Phc(params, salt.value, key.value));
  }

  // ---------------------------------------------------------------- round trip

  /** Parameters the fields of the parsed struct can hold, none of them zero. */
  predicate Representable(p: Params) {
    0 < p.memoryKiB < 0x1_0000_0000 && 0 < p.timeCost < 0x1_0000_0000 && 0 < p.parallelism < 256
  }

  lemma PrintedSetting(name: char, n: nat, p: Params)
    requires n < 0x1_0000_0000 && name in {'m', 't', 'p'}
    ensures '$' !in Setting(name, n) && ',' !in Setting(name, n)
    ensures SetParam(p, Setting(name, n)) == Ok(
      if name == 'm' then p.(memoryKiB := n) else if name == 't' then p.(timeCost := n) else p.(parallelism := n % 256))
  {
    var kv := Setting(name, n);
    FirstSeparator([name], PrintNat(n), '=');
    assert kv[2..] == PrintNat(n) && kv[..1] == [name];
    DigitsOfPrinted(n);
  }

  lemma SetThree(p: Params, a: string, b: string, c: string, p1: Params, p2: Params, p3: Params)
    requires SetParam(p, a) == Ok(p1) && SetParam(p1, b) == Ok(p2) && SetParam(p2, c) == Ok(p3)
    ensures SetParams(p, [a, b, c]) == Ok(p3)
  {
    assert [a, b, c][1..] == [b, c] && [b, c][1..] == [c] && [c][1..] == [];
    assert SetParams(p2, [c]) == Ok(p3);
    assert SetParams(p1, [b, c]) == Ok(p3);
  }

  lemma ParamsRoundTrip(p: Params)
    requires Representable(p)
    ensures '$' !in ParamsSegment(p)
    ensures SetParams(Params(0, 0, 0), Split(ParamsSegment(p), ',')) == Ok(p)
  {
    hide Split, SetParam, SetParams, Setting, IndexOf;
    var m, t, q := Setting('m', p.memoryKiB), Setting('t', p.timeCost), Setting('p', p.parallelism);
    var p1, p2 := Params(p.memoryKiB, 0, 0), Params(p.memoryKiB, p.timeCost, 0);
    PrintedSetting('m', p.memoryKiB, Params(0, 0, 0));
    PrintedSetting('t', p.timeCost, p1);
    PrintedSetting('p', p.parallelism, p2);
    SplitStep(m, t + "," + q, ',');
    SplitStep(t, q, ',');
    SplitNone(q, ',');
    assert Split(ParamsSegment(p), ',') == [m, t, q];
    SetThree(Params(0, 0, 0), m, t, q, p1, p2, p);
  }

  lemma SplitRendered(p: Params, salt: Bytes, key: Bytes)
    requires '$' !in ParamsSegment(p)
    ensures Split(Render(p, salt, key), '$')
         == ["", "argon2id", "v=" + PrintNat(19), ParamsSegment(p), Base64(salt), Base64(key)]
  {
    hide Split, IndexOf, Base64, ParamsSegment;
    var v, ps, s, k := "v=" + PrintNat(19), ParamsSegment(p), Base64(salt), Base64(key);
    Base64HasNoDollar(salt);
    Base64HasNoDollar(key);
    assert '$' !in v && '$' !in "argon2id";
    var r3 := s + "$" + k;
    var r2 := ps + "$" + r3;
    var r1 := v + "$" + r2;
    SplitNone(k, '$');
    SplitStep(s, k, '$');
    SplitStep(ps, r3, '$');
    SplitStep(v, r2, '$');
    SplitStep("argon2id", r1, '$');
    SplitStep("", "argon2id" + "$" + r1, '$');
  }

  lemma VersionAccepted()
    ensures VersionError("v=" + PrintNat(19)).None?
  {
    assert ("v=" + PrintNat(19))[2..] == PrintNat(19);
    DigitsOfPrinted(19);
  }

  /** Parsing undoes printing for all parameters, salts and keys. */
  lemma ParseInvertsRender(p: Params, salt: Bytes, key: Bytes)
    requires Representable(p)
    ensures ParsePhc(Render(p, salt, key)) == Ok(Phc(p, salt, key))
  {
    hide Render, Split, SetParams, ParamsSegment, VersionError, Base64, Base64Decode, PrintNat;
    ParamsRoundTrip(p);
    SplitRendered(p, salt, key);
    VersionAccepted();
    Base64RoundTrip(salt);
    Base64RoundTrip(key);
  }

  lemma DecodeInvertsEncode(salt: Bytes, key: Bytes)
    ensures ParsePhc(EncodePhc(salt, key)) == Ok(Phc(ARGON2ID_FLOOR, salt, key))
  {
    ParseInvertsRender(ARGON2ID_FLOOR, salt, key);
  }

  // ---------------------------------------------------------------- what is accepted

  predicate InRange(p: Params) {
    p.memoryKiB < 0x1_0000_0000 && p.timeCost < 0x1_0000_0000 && p.parallelism < 256
  }

  lemma {:induction false} SetParamsInRange(p: Params, kvs: seq<string>)
    requires InRange(p) && SetParams(p, kvs).Ok?
    ensures InRange(SetParams(p, kvs).value)
    decreases |kvs|
  {
    if kvs == [] {
    } else {
      SetParamsInRange(SetParam(p, kvs[0]).value, kvs[1..]);
    }
  }

  /** Whatever string is accepted, in any order of parameters or repetition, means the same as the printed
      form of what it parsed to. */
  lemma AcceptedMeansItsPrintedForm(phc: string)
    requires ParsePhc(phc).Ok?
    ensures var h := ParsePhc(phc).value;
      Representable(h.params) && ParsePhc(Render(h.params, h.salt, h.key)) == ParsePhc(phc)
  {
    var h := ParsePhc(phc).value;
    SetParamsInRange(Params(0, 0, 0), Split(Split(phc, '$')[3], ','));
    hide Render, Split, SetParams, VersionError, Base64, Base64Decode;
    assert Representable(h.params);
    ParseInvertsRender(h.params, h.salt, h.key);
  }
}
