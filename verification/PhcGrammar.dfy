/**
 * The PHC parser without its splits: which strings it accepts, what they mean, and which error every other
 * string gets.  And the printed form, letter by letter.
 */
module PhcGrammar {
  import opened Common
  import opened Phc

  // ---------------------------------------------------------------- joining undoes splitting

  function Join(parts: seq<string>, c: char): string
    requires |parts| >= 1
  {
    if |parts| == 1 then parts[0] else parts[0] + [c] + Join(parts[1..], c)
  }

  predicate Free(parts: seq<string>, c: char) {
    forall i :: 0 <= i < |parts| ==> c !in parts[i]
  }

  lemma {:induction false} SplitIsFree(s: string, c: char)
    ensures Free(Split(s, c), c) && Join(Split(s, c), c) == s
    decreases |s|
  {
    if c in s {
      var i := IndexOf(s, c);
      SplitIsFree(s[i + 1..], c);
      var parts := Split(s, c);
      assert parts[1..] == Split(s[i + 1..], c);
      assert s == s[..i] + [c] + s[i + 1..];
    }
  }

  lemma {:induction false} SplitOfJoin(parts: seq<string>, c: char)
    requires |parts| >= 1 && Free(parts, c)
    ensures Split(Join(parts, c), c) == parts
    decreases |parts|
  {
    if |parts| == 1 {
      SplitNone(parts[0], c);
      assert parts == [parts[0]];
    } else {
      SplitOfJoin(parts[1..], c);
      SplitStep(parts[0], Join(parts[1..], c), c);
      assert parts == [parts[0]] + parts[1..];
    }
  }

  // ---------------------------------------------------------------- settings

  /** `name=digits`, of a value below 2^32. */
  ghost predicate IsSetting(kv: string, name: char, n: nat) {
    exists digits: string :: kv == [name] + "=" + digits && AllDigits(digits) && DigitsVal(digits) == n && n < 4_294_967_296
  }

  ghost predicate Known(name: char) { name == 'm' || name == 't' || name == 'p' }

  /** The error of one pair: no equals sign, then no number below 2^32 after the first, then an unknown name before it. */
  lemma OnePair(p: Params, kv: string)
    ensures SetParam(p, kv) == Err(MalformedParam) <==> '=' !in kv
    ensures forall name: char, n: nat :: Known(name) && IsSetting(kv, name, n) ==>
      SetParam(p, kv) == Ok(if name == 'm' then Params(n, p.timeCost, p.parallelism)
                            else if name == 't' then Params(p.memoryKiB, n, p.parallelism)
                            else Params(p.memoryKiB, p.timeCost, n % 256))
    ensures SetParam(p, kv).Ok? ==> exists name: char, n: nat :: Known(name) && IsSetting(kv, name, n)
    ensures SetParam(p, kv).Err? ==> SetParam(p, kv).error in {MalformedParam, NonIntegerParam, UnknownParam}
    ensures forall key: string, digits: string :: kv == key + "=" + digits && '=' !in key ==>
      && (SetParam(p, kv) == Err(NonIntegerParam) <==> !(AllDigits(digits) && DigitsVal(digits) < 4_294_967_296))
      && (SetParam(p, kv) == Err(UnknownParam) <==>
            AllDigits(digits) && DigitsVal(digits) < 4_294_967_296 && key != "m" && key != "t" && key != "p")
  {
    forall key: string, digits: string | kv == key + "=" + digits && '=' !in key
      ensures '=' in kv && IndexOf(kv, '=') == |key| && kv[..|key|] == key && kv[|key| + 1..] == digits
    {
      FirstSeparator(key, digits, '=');
    }
    forall name: char, n: nat | Known(name) && IsSetting(kv, name, n)
      ensures '=' in kv && IndexOf(kv, '=') == 1 && kv[..1] == [name] && ParseUint32(kv[2..]) == Some(n)
    {
      var digits: string :| kv == [name] + "=" + digits && AllDigits(digits) && DigitsVal(digits) == n;
      FirstSeparator([name], digits, '=');
      assert kv[2..] == digits;
    }
    if SetParam(p, kv).Ok? {
      var eq := IndexOf(kv, '=');
      var digits := kv[eq + 1..];
      assert kv == kv[..eq] + "=" + digits;
      assert IsSetting(kv, kv[0], DigitsVal(digits));
    }
  }

  /** The value of the last setting of a name, 0 when there is none. */
  ghost predicate LastValue(kvs: seq<string>, name: char, v: nat) {
    if exists i, n: nat :: 0 <= i < |kvs| && IsSetting(kvs[i], name, n) then
      exists i, n: nat :: 0 <= i < |kvs| && IsSetting(kvs[i], name, n) && (v == if name == 'p' then n % 256 else n)
                     && forall j, x: nat :: i < j < |kvs| ==> !IsSetting(kvs[j], name, x)
    else v == 0
  }

  ghost predicate Usable(kv: string) {
    exists name: char, n: nat :: Known(name) && IsSetting(kv, name, n)
  }

  ghost predicate AllSettings(kvs: seq<string>) {
    forall i :: 0 <= i < |kvs| ==> Usable(kvs[i])
  }

  lemma AllSettingsAppend(kvs: seq<string>, kv: string)
    ensures AllSettings(kvs + [kv]) <==> AllSettings(kvs) && Usable(kv)
  {
    hide Usable;
    var all := kvs + [kv];
    assert all[|kvs|] == kv && forall i :: 0 <= i < |kvs| ==> all[i] == kvs[i];
  }

  lemma SettingUnique(kv: string, name: char, n: nat, name': char, n': nat)
    requires IsSetting(kv, name, n) && IsSetting(kv, name', n')
    ensures name == name' && n == n'
  {
    var d: string :| kv == [name] + "=" + d && AllDigits(d) && DigitsVal(d) == n;
    var d': string :| kv == [name'] + "=" + d' && AllDigits(d') && DigitsVal(d') == n';
    assert kv[0] == name == name' && kv[2..] == d == d';
  }

  lemma {:induction false} SetParamsAppend(p: Params, kvs: seq<string>, kv: string)
    ensures SetParams(p, kvs + [kv]) == match SetParams(p, kvs) case Err(e) => Err(e) case Ok(q) => SetParam(q, kv)
    decreases |kvs|
  {
    hide SetParam;
    if kvs == [] {
      assert [] + [kv] == [kv] && [kv][1..] == [];
      assert SetParams(p, [kv]) == match SetParam(p, kv) case Err(e) => Err(e) case Ok(q) => SetParams(q, []);
    } else {
      assert (kvs + [kv])[0] == kvs[0] && (kvs + [kv])[1..] == kvs[1..] + [kv];
      if SetParam(p, kvs[0]).Ok? {
        SetParamsAppend(SetParam(p, kvs[0]).value, kvs[1..], kv);
      }
    }
  }

  lemma LastOfAppended(kvs: seq<string>, kv: string, name: char, v: nat, other: char, n: nat)
    requires LastValue(kvs, name, v) && IsSetting(kv, other, n)
    ensures name != other ==> LastValue(kvs + [kv], name, v)
    ensures name == other ==> LastValue(kvs + [kv], name, if name == 'p' then n % 256 else n)
  {
    hide IsSetting;
    var all := kvs + [kv];
    forall x: nat ensures IsSetting(kv, name, x) ==> name == other && x == n {
      if IsSetting(kv, name, x) {
        SettingUnique(kv, name, x, other, n);
      }
    }
    assert all[|kvs|] == kv && forall i :: 0 <= i < |kvs| ==> all[i] == kvs[i];
    if name == other {
      assert IsSetting(all[|kvs|], name, n);
    } else if exists i, x: nat :: 0 <= i < |kvs| && IsSetting(kvs[i], name, x) {
      var i, x: nat :| && 0 <= i < |kvs| && IsSetting(kvs[i], name, x) && (v == if name == 'p' then x % 256 else x)
                       && forall j, y: nat :: i < j < |kvs| ==> !IsSetting(kvs[j], name, y);
      assert IsSetting(all[i], name, x);
    }
  }

  /** The loop succeeds exactly on settings of known names, and each parameter is the last value given to it. */
  lemma {:induction false} ParamsMean(kvs: seq<string>)
    ensures SetParams(Params(0, 0, 0), kvs).Ok? <==> AllSettings(kvs)
    ensures SetParams(Params(0, 0, 0), kvs).Ok? ==>
      var q := SetParams(Params(0, 0, 0), kvs).value;
      LastValue(kvs, 'm', q.memoryKiB) && LastValue(kvs, 't', q.timeCost) && LastValue(kvs, 'p', q.parallelism)
    decreases |kvs|
  {
    hide IsSetting, SetParam;
    if kvs != [] {
      var n := |kvs| - 1;
      var init, kv := kvs[..n], kvs[n];
      assert kvs == init + [kv];
      ParamsMean(init);
      SetParamsAppend(Params(0, 0, 0), init, kv);
      AllSettingsAppend(init, kv);
      hide AllSettings;
      if SetParams(Params(0, 0, 0), init).Ok? {
        var q := SetParams(Params(0, 0, 0), init).value;
        OnePair(q, kv);
        if SetParam(q, kv).Ok? {
          var name: char, v: nat :| Known(name) && IsSetting(kv, name, v);
          hide SetParams, LastValue;
          LastOfAppended(init, kv, 'm', q.memoryKiB, name, v);
          LastOfAppended(init, kv, 't', q.timeCost, name, v);
          LastOfAppended(init, kv, 'p', q.parallelism, name, v);
        }
      }
    }
  }

  // ---------------------------------------------------------------- the whole string

  /** `v=` and a decimal 19, with leading zeros or a plus sign at will. */
  ghost predicate IsVersion19(v: string) {
    exists sign: string, digits: string :: v == "v=" + sign + digits && (sign == "" || sign == "+") && AllDigits(digits) && DigitsVal(digits) == 19
  }

  lemma Version(v: string)
    ensures VersionError(v) == Some(MissingVersion) <==> !("v=" <= v)
    ensures VersionError(v).None? <==> IsVersion19(v)
    ensures VersionError(v).Some? ==> VersionError(v).value in {MissingVersion, UnsupportedVersion}
  {
    if VersionError(v).None? {
      AcceptedVersion(v);
    }
    if IsVersion19(v) {
      var sign: string, digits: string :| v == "v=" + sign + digits && (sign == "" || sign == "+") && AllDigits(digits) && DigitsVal(digits) == 19;
      VersionOf(v, sign, digits);
    }
  }

  lemma AcceptedVersion(v: string)
    requires VersionError(v).None?
    ensures IsVersion19(v)
  {
    hide DigitsVal;
    var rest := v[2..];
    if AllDigits(rest) {
      assert v == "v=" + "" + rest;
    } else {
      assert rest[0] == '+' && rest == "+" + rest[1..];
      assert v == "v=" + "+" + rest[1..];
    }
  }

  lemma VersionOf(v: string, sign: string, digits: string)
    requires v == "v=" + sign + digits && (sign == "" || sign == "+") && AllDigits(digits) && DigitsVal(digits) == 19
    ensures VersionError(v).None? && "v=" <= v
  {
    hide DigitsVal;
    assert v[2..] == sign + digits;
    if sign == "+" {
      assert v[2..][1..] == digits && !IsDigit('+') && v[2..][0] in v[2..];
    } else {
      assert v[2..] == digits;
    }
  }

  /** The five segments after an initial dollar. */
  function Segments(a: string, b: string, c: string, d: string, e: string): string {
    "$" + (a + "$" + (b + "$" + (c + "$" + (d + "$" + e))))
  }

  lemma FiveFree(a: string, b: string, c: string, d: string, e: string)
    ensures Free([a, b, c, d, e], '$') <==> '$' !in a && '$' !in b && '$' !in c && '$' !in d && '$' !in e
  {
    var p := [a, b, c, d, e];
    assert p[0] == a && p[1] == b && p[2] == c && p[3] == d && p[4] == e;
  }

  lemma SplitSegments(a: string, b: string, c: string, d: string, e: string)
    requires Free([a, b, c, d, e], '$')
    ensures Split(Segments(a, b, c, d, e), '$') == ["", a, b, c, d, e]
  {
    FiveFree(a, b, c, d, e);
    hide Split, IndexOf, Free;
    var r4 := d + "$" + e;
    var r3 := c + "$" + r4;
    var r2 := b + "$" + r3;
    var r1 := a + "$" + r2;
    SplitNone(e, '$');
    SplitStep(d, e, '$');
    SplitStep(c, r4, '$');
    SplitStep(b, r3, '$');
    SplitStep(a, r2, '$');
    SplitStep("", r1, '$');
    assert Segments(a, b, c, d, e) == "" + "$" + r1;
  }

  lemma SixParts(s: string) returns (a: string, b: string, c: string, d: string, e: string)
    requires |Split(s, '$')| == 6 && Split(s, '$')[0] == ""
    ensures Free([a, b, c, d, e], '$') && s == Segments(a, b, c, d, e)
  {
    var p := Split(s, '$');
    SplitIsFree(s, '$');
    a, b, c, d, e := p[1], p[2], p[3], p[4], p[5];
    assert p == ["", a, b, c, d, e];
    hide Split;
    assert Join([e], '$') == e;
    assert Join([d, e], '$') == d + "$" + e by { assert [d, e][1..] == [e]; }
    assert Join([c, d, e], '$') == c + "$" + (d + "$" + e) by { assert [c, d, e][1..] == [d, e]; }
    assert Join([b, c, d, e], '$') == b + "$" + (c + "$" + (d + "$" + e)) by { assert [b, c, d, e][1..] == [c, d, e]; }
    assert Join([a, b, c, d, e], '$') == a + "$" + (b + "$" + (c + "$" + (d + "$" + e))) by { assert [a, b, c, d, e][1..] == [b, c, d, e]; }
    assert Join(["", a, b, c, d, e], '$') == "" + "$" + Join([a, b, c, d, e], '$') by { assert ["", a, b, c, d, e][1..] == [a, b, c, d, e]; }
  }

  /** A string that is not five segments after an initial dollar is malformed. */
  lemma MalformedIff(s: string)
    ensures ParsePhc(s) == Err(MalformedPhc) <==> !exists a, b, c, d, e :: Free([a, b, c, d, e], '$') && s == Segments(a, b, c, d, e)
  {
    if a, b, c, d, e :| Free([a, b, c, d, e], '$') && s == Segments(a, b, c, d, e) {
      SplitSegments(a, b, c, d, e);
      SegmentsMean(a, b, c, d, e);
    } else if |Split(s, '$')| == 6 && Split(s, '$')[0] == "" {
      var a, b, c, d, e := SixParts(s);
    }
  }

  /** `kvs[i]` is the first pair that is not a setting of a known name, and `e` the error it gets. */
  ghost predicate FirstBad(kvs: seq<string>, i: nat, e: Error) {
    && i < |kvs| && (forall j :: 0 <= j < i ==> Usable(kvs[j])) && !Usable(kvs[i])
    && SetParam(Params(0, 0, 0), kvs[i]) == Err(e)
  }

  lemma ErrorOfPair(p: Params, kv: string)
    ensures SetParam(p, kv).Ok? <==> Usable(kv)
    ensures SetParam(p, kv).Err? ==> SetParam(Params(0, 0, 0), kv) == Err(SetParam(p, kv).error)
  {
    OnePair(p, kv);
    hide IsSetting;
    if Usable(kv) {
      var name: char, n: nat :| Known(name) && IsSetting(kv, name, n);
    }
  }

  lemma {:induction false} ParamErrors(p: Params, kvs: seq<string>) returns (i: nat)
    requires SetParams(p, kvs).Err?
    ensures FirstBad(kvs, i, SetParams(p, kvs).error)
    decreases |kvs|
  {
    hide SetParam, Usable;
    ErrorOfPair(p, kvs[0]);
    if SetParam(p, kvs[0]).Ok? {
      var k := ParamErrors(SetParam(p, kvs[0]).value, kvs[1..]);
      i := k + 1;
      assert forall j :: 0 < j < i ==> kvs[j] == kvs[1..][j - 1];
    } else {
      i := 0;
    }
  }

  lemma PairErrors(kvs: seq<string>, i: nat, e: Error)
    requires FirstBad(kvs, i, e)
    ensures e in {MalformedParam, NonIntegerParam, UnknownParam}
  {
    OnePair(Params(0, 0, 0), kvs[i]);
  }

  /** What five segments mean: variant, version, settings, salt and hash are judged in this order. */
  lemma SegmentsMean(variant: string, version: string, settings: string, salt: string, key: string)
    requires Free([variant, version, settings, salt, key], '$')
    ensures var r, kvs := ParsePhc(Segments(variant, version, settings, salt, key)), Split(settings, ',');
      var headed := variant == "argon2id" && IsVersion19(version);
      && (r == Err(UnsupportedVariant) <==> variant != "argon2id")
      && (r == Err(MissingVersion) <==> variant == "argon2id" && !("v=" <= version))
      && (r == Err(UnsupportedVersion) <==> variant == "argon2id" && "v=" <= version && !IsVersion19(version))
      && (headed && !AllSettings(kvs) ==> r.Err? && exists i: nat :: FirstBad(kvs, i, r.error))
      && (headed && AllSettings(kvs) ==>
            exists m: nat, t: nat, p: nat :: LastValue(kvs, 'm', m) && LastValue(kvs, 't', t) && LastValue(kvs, 'p', p)
              && r == if m == 0 || t == 0 || p == 0 then Err(MissingParam)
                      else if Base64Decode(salt).None? then Err(SaltDecode)
                      else if Base64Decode(key).None? then Err(HashDecode)
                      else Ok(Phc(Params(m, t, p), Base64Decode(salt).value, Base64Decode(key).value)))
      && r != Err(MalformedPhc)
  {
    JudgedInOrder(variant, version, settings, salt, key);
    Version(version);
    SettingsMean(Split(settings, ','), salt, key);
    hide ParsePhc, Segments, Split, IsVersion19, AllSettings, LastValue, VersionError, Base64Decode, FirstBad, SettingsResult, Free;
  }

  lemma JudgedInOrder(variant: string, version: string, settings: string, salt: string, key: string)
    requires Free([variant, version, settings, salt, key], '$')
    ensures ParsePhc(Segments(variant, version, settings, salt, key)) ==
      if variant != "argon2id" then Err(UnsupportedVariant)
      else if VersionError(version).Some? then Err(VersionError(version).value)
      else SettingsResult(Split(settings, ','), salt, key)
  {
    SplitSegments(variant, version, settings, salt, key);
    hide Segments, Split, SetParams, VersionError, Finish, Free;
    var parts := ["", variant, version, settings, salt, key];
    assert |parts| == 6 && parts[0] == "" && parts[1] == variant && parts[2] == version && parts[3] == settings
        && parts[4] == salt && parts[5] == key;
  }

  /** What is left to judge once variant and version are right. */
  function SettingsResult(kvs: seq<string>, salt: string, key: string): Result<Phc, Error> {
    match SetParams(Params(0, 0, 0), kvs)
    case Err(e) => Err(e)
    case Ok(p) => Finish(p, salt, key)
  }

  lemma SettingsMean(kvs: seq<string>, salt: string, key: string)
    ensures var r := SettingsResult(kvs, salt, key);
      && (!AllSettings(kvs) ==> r.Err? && exists i: nat :: FirstBad(kvs, i, r.error))
      && (AllSettings(kvs) ==>
            exists m: nat, t: nat, p: nat :: LastValue(kvs, 'm', m) && LastValue(kvs, 't', t) && LastValue(kvs, 'p', p)
              && r == if m == 0 || t == 0 || p == 0 then Err(MissingParam)
                      else if Base64Decode(salt).None? then Err(SaltDecode)
                      else if Base64Decode(key).None? then Err(HashDecode)
                      else Ok(Phc(Params(m, t, p), Base64Decode(salt).value, Base64Decode(key).value)))
      && (r.Err? ==> r.error !in {MalformedPhc, UnsupportedVariant, MissingVersion, UnsupportedVersion})
  {
    ParamsMean(kvs);
    if SetParams(Params(0, 0, 0), kvs).Err? {
      var i := ParamErrors(Params(0, 0, 0), kvs);
      PairErrors(kvs, i, SetParams(Params(0, 0, 0), kvs).error);
    }
    hide FirstBad, AllSettings, LastValue, SetParams, Base64Decode;
    if SetParams(Params(0, 0, 0), kvs).Ok? {
      var q := SetParams(Params(0, 0, 0), kvs).value;
      assert q == Params(q.memoryKiB, q.timeCost, q.parallelism);
    }
  }

  /** A settings segment is its pairs joined by commas. */
  lemma SettingsJoin(settings: string)
    ensures Free(Split(settings, ','), ',') && Join(Split(settings, ','), ',') == settings
  {
    SplitIsFree(settings, ',');
  }

  // ---------------------------------------------------------------- the printed form

  /** The hash string of a salt and a key, letter by letter, and what it parses to. */
  lemma PrintedForm(salt: Bytes, key: Bytes)
    ensures EncodePhc(salt, key) == "$argon2id$v=19$m=19456,t=2,p=1$" + Base64(salt) + "$" + Base64(key)
    ensures ParsePhc(EncodePhc(salt, key)) == Ok(Phc(Params(19456, 2, 1), salt, key))
  {
    DecodeInvertsEncode(salt, key);
    Numbers();
    hide Base64, PrintNat;
    var head := "$argon2id$v=19$m=19456,t=2,p=1$";
    assert ParamsSegment(ARGON2ID_FLOOR) == "m=19456,t=2,p=1" by {
      assert "m" + "=" + "19456" == "m=19456" && "t" + "=" + "2" == "t=2" && "p" + "=" + "1" == "p=1";
      assert "m=19456" + "," + ("t=2" + "," + "p=1") == "m=19456,t=2,p=1";
    }
    hide ParamsSegment;
    Heading(Base64(salt) + "$" + Base64(key));
    assert head + Base64(salt) + "$" + Base64(key) == head + (Base64(salt) + "$" + Base64(key));
  }

  lemma Heading(tail: string)
    ensures "" + "$" + ("argon2id" + "$" + (("v=" + "19") + "$" + ("m=19456,t=2,p=1" + "$" + tail))) == "$argon2id$v=19$m=19456,t=2,p=1$" + tail
  {
    var variant, version, settings := "argon2id$", "v=19$", "m=19456,t=2,p=1$";
    assert "argon2id" + "$" == variant && ("v=" + "19") + "$" == version && "m=19456,t=2,p=1" + "$" == settings;
    assert "$" + variant == "$argon2id$";
    assert "$argon2id$" + version == "$argon2id$v=19$";
    assert "$argon2id$v=19$" + settings == "$argon2id$v=19$m=19456,t=2,p=1$";
    FourParts("argon2id", "v=" + "19", "m=19456,t=2,p=1", tail);
  }

  lemma FourParts(a: string, b: string, c: string, tail: string)
    ensures "" + "$" + (a + "$" + (b + "$" + (c + "$" + tail))) == "$" + (a + "$") + (b + "$") + (c + "$") + tail
  {
  }

  lemma Numbers()
    ensures PrintNat(19) == "19" && PrintNat(19456) == "19456" && PrintNat(2) == "2" && PrintNat(1) == "1"
  {
    assert PrintNat(194) == PrintNat(19) + "4" && PrintNat(19) == PrintNat(1) + "9";
    assert PrintNat(1945) == PrintNat(194) + "5";
    assert PrintNat(19456) == PrintNat(1945) + "6";
  }

  /** The symbols of RFC 4648 section 4. */
  lemma Base64Alphabet(v: Sextet)
    ensures v < 26 ==> Symbol(v) == "ABCDEFGHIJKLMNOPQRSTUVWXYZ"[v]
    ensures 26 <= v < 52 ==> Symbol(v) == "abcdefghijklmnopqrstuvwxyz"[v - 26]
    ensures 52 <= v < 62 ==> Symbol(v) == "0123456789"[v - 52]
    ensures v >= 62 ==> Symbol(v) == "+/"[v - 62]
  {
  }

  lemma LowSixBits(q: nat, r: nat)
    requires r < 64
    ensures (q * 64 + r) / 64 == q && (q * 64 + r) % 64 == r
  {
  }

  lemma SixthsOfThree(a: Byte, b: Byte, c: Byte)
    ensures var bits := a * 65536 + b * 256 + c;
      S0(a) == bits / 64 / 64 / 64 && S1(a, b) == bits / 64 / 64 % 64 && S2(b, c) == bits / 64 % 64 && S3(c) == bits % 64
  {
    var q2 := S0(a) * 64 + S1(a, b);
    var q1 := q2 * 64 + S2(b, c);
    assert a == S0(a) * 4 + a % 4 && b == b / 16 * 16 + b % 16 && c == c / 64 * 64 + c % 64;
    assert a * 65536 + b * 256 + c == q1 * 64 + S3(c);
    hide S0, S1, S2, S3;
    LowSixBits(q1, S3(c));
    LowSixBits(q2, S2(b, c));
    LowSixBits(S0(a), S1(a, b));
  }

  /** The symbols of three bytes are the four sixths of their 24 bits, most significant first; fewer bytes are filled with zero bits. */
  lemma Base64OfThree(a: Byte, b: Byte, c: Byte)
    ensures var bits := a * 65536 + b * 256 + c;
      Base64([a, b, c]) == [Symbol(S0(a)), Symbol(S1(a, b)), Symbol(S2(b, c)), Symbol(S3(c))]
      && S0(a) == bits / 64 / 64 / 64 && S1(a, b) == bits / 64 / 64 % 64 && S2(b, c) == bits / 64 % 64 && S3(c) == bits % 64
    ensures Base64([a]) == Base64([a, 0, 0])[..2] && Base64([a, b]) == Base64([a, b, 0])[..3]
  {
    SixthsOfThree(a, b, c);
    hide Symbol, S0, S1, S2, S3;
    assert [a, b, c][3..] == [] && [a, 0, 0][3..] == [] && [a, b, 0][3..] == [];
    assert ToSextets([a, b, c]) == [S0(a), S1(a, b), S2(b, c), S3(c)];
    assert ToSextets([a, 0, 0]) == [S0(a), S1(a, 0), S2(0, 0), S3(0)];
    assert ToSextets([a, b, 0]) == [S0(a), S1(a, b), S2(b, 0), S3(0)];
  }
}
