/** The encoded Argon2id password hash: its printer, its hand-written parser, and
    the exact language the parser accepts. */
module PasswordHash {
  import opened Domain
  import opened Text
  import opened Decimal
  import opened Base64

  const ALGORITHM := "argon2id"
  const VERSION: nat := 19
  const MAX_ENCODED_LENGTH: nat := 128
  const MEMORY: nat := 65536
  const TIME: nat := 3
  const THREADS: nat := 4
  const SALT_LENGTH: nat := 32
  const KEY_LENGTH: nat := 32
  const UINT32_LIMIT: nat := 0x1_0000_0000
  const UINT8_LIMIT: nat := 0x100

  datatype Parsed = Parsed(memory: nat, time: nat, threads: nat, salt: seq<byte>, derivedKey: seq<byte>)

  // ----- what is accepted -----

  /** `field` is `name=digits`, and the digits denote a number below `limit`. */
  function NamedUint(field: string, name: string, limit: nat): Option<nat> {
    var prefix := name + "=";
    if !(prefix <= field) || |field| == |prefix| then None
    else
      var raw := field[|prefix|..];
      if AllDigits(raw) && DigitsValue(raw) < limit then Some(DigitsValue(raw)) else None
  }

  datatype Parameter = Memory | Time | Threads | Unsupported

  function ParameterOf(field: string): Parameter {
    if NamedUint(field, "m", UINT32_LIMIT) == Some(MEMORY) then Memory
    else if NamedUint(field, "t", UINT32_LIMIT) == Some(TIME) then Time
    else if NamedUint(field, "p", UINT8_LIMIT) == Some(THREADS) then Threads
    else Unsupported
  }

  /** The three parameters, each once, in any order, at the supported cost. */
  predicate IsParameterList(encoded: string) {
    var fields := Split(encoded, ',');
    |fields| == 3 && EachOnce(ParameterOf(fields[0]), ParameterOf(fields[1]), ParameterOf(fields[2]))
  }

  predicate EachOnce(a: Parameter, b: Parameter, c: Parameter) {
    a != Unsupported && b != Unsupported && c != Unsupported && a != b && b != c && a != c
  }

  function FixedField(encoded: string, minimum: nat, maximum: nat): Option<seq<byte>> {
    if |encoded| < EncodedLength(minimum) || |encoded| > EncodedLength(maximum) then None
    else
      match Decode(encoded)
      case Some(bytes) => if minimum <= |bytes| <= maximum then Some(bytes) else None
      case None => None
  }

  function Parse(encoded: string): Option<Parsed> {
    if |encoded| == 0 || |encoded| > MAX_ENCODED_LENGTH then None else ParseParts(Split(encoded, '$'))
  }

  function ParseParts(parts: seq<string>): Option<Parsed> {
    if |parts| != 6 || parts[0] != "" || parts[1] != ALGORITHM
       || NamedUint(parts[2], "v", UINT32_LIMIT) != Some(VERSION) || !IsParameterList(parts[3]) then
      None
    else
      match (FixedField(parts[4], SALT_LENGTH, SALT_LENGTH), FixedField(parts[5], KEY_LENGTH, KEY_LENGTH))
      case (Some(salt), Some(key)) => Some(Parsed(MEMORY, TIME, THREADS, salt, key))
      case _ => None
  }

  /** The six parts of an encoded hash between their separators. */
  function Frame(version: string, parameters: string, salt: string, key: string): string {
    "" + "$" + (ALGORITHM + "$" + (version + "$" + (parameters + "$" + (salt + "$" + key))))
  }

  function PrintField(name: string, value: nat): string {
    name + "=" + PrintNat(value)
  }

  function PrintParameters(): string {
    PrintField("m", MEMORY) + "," + (PrintField("t", TIME) + "," + PrintField("p", THREADS))
  }

  function Print(salt: seq<byte>, key: seq<byte>): string {
    Frame(PrintField("v", VERSION), PrintParameters(), Encode(salt), Encode(key))
  }

  // ----- the parser -----

  method ParseNamedUint(field: string, name: string, limit: nat) returns (result: Option<nat>)
    ensures result == NamedUint(field, name, limit)
  {
    var prefix := name + "=";
    if !(prefix <= field) || |field| == |prefix| {
      return None;
    }
    var raw := field[|prefix|..];
    for index := 0 to |raw|
      invariant AllDigits(raw[..index])
    {
      if raw[index] < '0' || raw[index] > '9' {
        return None;
      }
    }
    assert raw[..|raw|] == raw;
    var value := DigitsValue(raw);
    result := if value < limit then Some(value) else None;
  }

  method DecodeFixedRawBase64(encoded: string, minimum: nat, maximum: nat) returns (result: Option<seq<byte>>)
    ensures result == FixedField(encoded, minimum, maximum)
  {
    if |encoded| < EncodedLength(minimum) || |encoded| > EncodedLength(maximum) {
      return None;
    }
    for index := 0 to |encoded|
      invariant IsAlphabet(encoded[..index])
    {
      if !IsBase64Char(encoded[index]) {
        return None;
      }
    }
    assert encoded[..|encoded|] == encoded;
    var decoded := Bytes(Values(encoded));
    if decoded.None? || |decoded.value| < minimum || |decoded.value| > maximum {
      return None;
    }
    result := decoded;
  }

  /** The text before the first `=`, if there is one. */
  function NameOf(field: string): Option<string>
    decreases |field|
  {
    if field == "" then None
    else if field[0] == '=' then Some("")
    else match NameOf(field[1..])
      case Some(name) => Some([field[0]] + name)
      case None => None
  }

  lemma NamedUintName(field: string, name: char, limit: nat)
    requires NamedUint(field, [name], limit).Some? && name != '='
    ensures NameOf(field) == Some([name])
  {
    var prefix := [name] + "=";
    assert field[..2] == prefix;
    assert field[0] == field[..2][0] == name && field[1] == field[..2][1] == '=';
    assert NameOf(field[1..]) == Some("");
    assert [name] + "" == [name];
  }

  lemma ParameterNames(field: string)
    ensures ParameterOf(field) == Memory ==> NameOf(field) == Some("m")
    ensures ParameterOf(field) == Time ==> NameOf(field) == Some("t")
    ensures ParameterOf(field) == Threads ==> NameOf(field) == Some("p")
  {
    match ParameterOf(field)
    case Memory => NamedUintName(field, 'm', UINT32_LIMIT);
    case Time => NamedUintName(field, 't', UINT32_LIMIT);
    case Threads => NamedUintName(field, 'p', UINT8_LIMIT);
    case Unsupported =>
  }

  /** The fields before `i` that the flags say were seen. */
  ghost predicate Seen(kinds: seq<Parameter>, i: nat, memory: bool, time: bool, threads: bool)
    requires i <= |kinds|
  {
    && (memory <==> Memory in kinds[..i])
    && (time <==> Time in kinds[..i])
    && (threads <==> Threads in kinds[..i])
    && Unsupported !in kinds[..i]
  }

  lemma SeenNext(kinds: seq<Parameter>, i: nat, memory: bool, time: bool, threads: bool)
    requires i < |kinds| && Seen(kinds, i, memory, time, threads) && kinds[i] != Unsupported
    ensures Seen(kinds, i + 1, memory || kinds[i] == Memory, time || kinds[i] == Time, threads || kinds[i] == Threads)
  {
    assert kinds[..i + 1] == kinds[..i] + [kinds[i]];
  }

  lemma SeenRepeat(kinds: seq<Parameter>, i: nat, memory: bool, time: bool, threads: bool)
    requires |kinds| == 3 && i < 3 && Seen(kinds, i, memory, time, threads)
    requires kinds[i] == Unsupported || (memory && kinds[i] == Memory) || (time && kinds[i] == Time)
             || (threads && kinds[i] == Threads)
    ensures !EachOnce(kinds[0], kinds[1], kinds[2])
  {
    assert kinds[i] in kinds[..i] ==> exists k :: 0 <= k < i && kinds[k] == kinds[i];
  }

  lemma SeenAll(kinds: seq<Parameter>, memory: bool, time: bool, threads: bool)
    requires |kinds| == 3 && Seen(kinds, 3, memory, time, threads)
    ensures EachOnce(kinds[0], kinds[1], kinds[2]) <==> memory && time && threads
  {
    assert kinds[..3] == [kinds[0], kinds[1], kinds[2]];
    assert kinds[0] in kinds[..3] && kinds[1] in kinds[..3] && kinds[2] in kinds[..3];
  }

  /** The loop over the fields, with its seen flags. */
  method ParseParameters(encoded: string) returns (ok: bool)
    ensures ok <==> IsParameterList(encoded)
  {
    var fields := Split(encoded, ',');
    if |fields| != 3 {
      return false;
    }
    ghost var kinds := [ParameterOf(fields[0]), ParameterOf(fields[1]), ParameterOf(fields[2])];
    var seenMemory, seenTime, seenThreads := false, false, false;
    for i := 0 to 3
      invariant Seen(kinds, i, seenMemory, seenTime, seenThreads)
    {
      var field := fields[i];
      assert kinds[i] == ParameterOf(field);
      var name := NameOf(field);
      ParameterNames(field);
      if kinds[i] != Unsupported {
        SeenNext(kinds, i, seenMemory, seenTime, seenThreads);
      }
      ghost var repeated := kinds[i] == Unsupported || (seenMemory && kinds[i] == Memory)
                            || (seenTime && kinds[i] == Time) || (seenThreads && kinds[i] == Threads);
      if repeated {
        SeenRepeat(kinds, i, seenMemory, seenTime, seenThreads);
      }
      if name == Some("m") {
        if seenMemory {
          return false;
        }
        var value := ParseNamedUint(field, "m", UINT32_LIMIT);
        if value != Some(MEMORY) {
          return false;
        }
        seenMemory := true;
      } else if name == Some("t") {
        if seenTime {
          return false;
        }
        var value := ParseNamedUint(field, "t", UINT32_LIMIT);
        if value != Some(TIME) {
          return false;
        }
        seenTime := true;
      } else if name == Some("p") {
        if seenThreads {
          return false;
        }
        var value := ParseNamedUint(field, "p", UINT8_LIMIT);
        if value != Some(THREADS) {
          return false;
        }
        seenThreads := true;
      } else {
        return false;
      }
    }
    SeenAll(kinds, seenMemory, seenTime, seenThreads);
    ok := seenMemory && seenTime && seenThreads;
  }

  method ParseArgon2idHash(encoded: string) returns (result: Option<Parsed>)
    ensures result == Parse(encoded)
  {
    if |encoded| == 0 || |encoded| > MAX_ENCODED_LENGTH {
      return None;
    }
    var parts := Split(encoded, '$');
    if |parts| != 6 || parts[0] != "" || parts[1] != ALGORITHM {
      return None;
    }
    var version := ParseNamedUint(parts[2], "v", UINT32_LIMIT);
    if version != Some(VERSION) {
      return None;
    }
    var parameters := ParseParameters(parts[3]);
    if !parameters {
      return None;
    }
    var salt := DecodeFixedRawBase64(parts[4], SALT_LENGTH, SALT_LENGTH);
    if salt.None? {
      return None;
    }
    var key := DecodeFixedRawBase64(parts[5], KEY_LENGTH, KEY_LENGTH);
    if key.None? {
      return None;
    }
    result := Some(Parsed(MEMORY, TIME, THREADS, salt.value, key.value));
  }

  // ----- round trips and the accepted language -----

  predicate Without(s: string, c: char) {
    forall i :: 0 <= i < |s| ==> s[i] != c
  }

  lemma FrameParts(version: string, parameters: string, salt: string, key: string)
    requires Without(version, '$') && Without(parameters, '$') && Without(salt, '$') && Without(key, '$')
    ensures Split(Frame(version, parameters, salt, key), '$') == ["", ALGORITHM, version, parameters, salt, key]
  {
    var r4 := salt + "$" + key;
    var r3 := parameters + "$" + r4;
    var r2 := version + "$" + r3;
    var r1 := ALGORITHM + "$" + r2;
    SplitWithout(key, '$');
    SplitPrefix(salt, key, '$');
    SplitPrefix(parameters, r4, '$');
    SplitPrefix(version, r3, '$');
    SplitPrefix(ALGORITHM, r2, '$');
    SplitPrefix("", r1, '$');
  }

  lemma PartsFrame(parts: seq<string>)
    requires |parts| == 6 && parts[0] == "" && parts[1] == ALGORITHM
    ensures Join(parts, "$") == Frame(parts[2], parts[3], parts[4], parts[5])
  {
    var t1 := parts[1..];
    var t2 := t1[1..];
    var t3 := t2[1..];
    var t4 := t3[1..];
    assert t4[1..] == [parts[5]];
    assert t1[0] == parts[1] && t2[0] == parts[2] && t3[0] == parts[3] && t4[0] == parts[4];
    assert Join(t4, "$") == parts[4] + "$" + parts[5];
    assert Join(t3, "$") == parts[3] + "$" + Join(t4, "$");
    assert Join(t2, "$") == parts[2] + "$" + Join(t3, "$");
    assert Join(t1, "$") == parts[1] + "$" + Join(t2, "$");
  }

  lemma NamedUintWithout(field: string, name: string, limit: nat, c: char)
    requires NamedUint(field, name, limit).Some? && c !in name && c != '=' && !IsDigit(c)
    ensures Without(field, c)
  {
    var prefix := name + "=";
    assert field == prefix + field[|prefix|..];
    assert forall i :: 0 <= i < |prefix| ==> prefix[i] in prefix;
  }

  lemma ParameterWithout(field: string)
    requires ParameterOf(field) != Unsupported
    ensures Without(field, '$')
  {
    match ParameterOf(field)
    case Memory => NamedUintWithout(field, "m", UINT32_LIMIT, '$');
    case Time => NamedUintWithout(field, "t", UINT32_LIMIT, '$');
    case Threads => NamedUintWithout(field, "p", UINT8_LIMIT, '$');
  }

  lemma ParameterListWithout(encoded: string)
    requires IsParameterList(encoded)
    ensures Without(encoded, '$')
  {
    var fields := Split(encoded, ',');
    JoinSplit(encoded, ',');
    ParameterWithout(fields[0]);
    ParameterWithout(fields[1]);
    ParameterWithout(fields[2]);
    var tail := fields[1..];
    assert tail[1..] == [fields[2]] && tail[0] == fields[1];
    assert Join(tail, ",") == fields[1] + "," + fields[2];
    assert Join(fields, ",") == fields[0] + "," + Join(tail, ",");
    assert encoded == fields[0] + "," + (fields[1] + "," + fields[2]);
  }

  /** The language of the parser: the fixed frame, a version field of value 19, a
      parameter list, and the encodings of a salt and a key of 32 bytes. */
  ghost predicate Accepts(encoded: string, version: string, parameters: string, salt: seq<byte>, key: seq<byte>) {
    && encoded == Frame(version, parameters, Encode(salt), Encode(key))
    && |encoded| <= MAX_ENCODED_LENGTH
    && NamedUint(version, "v", UINT32_LIMIT) == Some(VERSION)
    && IsParameterList(parameters)
    && |salt| == SALT_LENGTH && |key| == KEY_LENGTH
  }

  lemma AcceptedParses(encoded: string, version: string, parameters: string, salt: seq<byte>, key: seq<byte>)
    requires Accepts(encoded, version, parameters, salt, key)
    ensures Parse(encoded) == Some(Parsed(MEMORY, TIME, THREADS, salt, key))
  {
    AcceptedSplits(encoded, version, parameters, salt, key);
    FieldDecodes(salt);
    FieldDecodes(key);
    PartsParse(version, parameters, Encode(salt), Encode(key), salt, key);
    FrameIsNotEmpty(version, parameters, Encode(salt), Encode(key));
  }

  lemma PartsParse(version: string, parameters: string, saltField: string, keyField: string, salt: seq<byte>, key: seq<byte>)
    requires NamedUint(version, "v", UINT32_LIMIT) == Some(VERSION) && IsParameterList(parameters)
    requires FixedField(saltField, SALT_LENGTH, SALT_LENGTH) == Some(salt)
    requires FixedField(keyField, KEY_LENGTH, KEY_LENGTH) == Some(key)
    ensures ParseParts(["", ALGORITHM, version, parameters, saltField, keyField])
         == Some(Parsed(MEMORY, TIME, THREADS, salt, key))
  {
  }

  lemma FrameIsNotEmpty(version: string, parameters: string, salt: string, key: string)
    ensures Frame(version, parameters, salt, key) != ""
  {
  }

  lemma FieldDecodes(bytes: seq<byte>)
    requires |bytes| == SALT_LENGTH
    ensures FixedField(Encode(bytes), |bytes|, |bytes|) == Some(bytes)
  {
    DecodeEncode(bytes);
  }

  lemma AcceptedSplits(encoded: string, version: string, parameters: string, salt: seq<byte>, key: seq<byte>)
    requires Accepts(encoded, version, parameters, salt, key)
    ensures Split(encoded, '$') == ["", ALGORITHM, version, parameters, Encode(salt), Encode(key)]
  {
    NamedUintWithout(version, "v", UINT32_LIMIT, '$');
    ParameterListWithout(parameters);
    DecodeEncode(salt);
    DecodeEncode(key);
    FrameParts(version, parameters, Encode(salt), Encode(key));
  }

  lemma ParsedIsAccepted(encoded: string)
    requires Parse(encoded).Some?
    ensures var parts := Split(encoded, '$');
            |parts| == 6 && Accepts(encoded, parts[2], parts[3], Parse(encoded).value.salt, Parse(encoded).value.derivedKey)
  {
    var parts := Split(encoded, '$');
    JoinSplit(encoded, '$');
    EncodeDecode(parts[4]);
    EncodeDecode(parts[5]);
    PartsFrame(parts);
  }

  /** The parser accepts exactly the language, and returns the salt and key written in it. */
  lemma ParserAcceptsExactly(encoded: string, parsed: Parsed)
    ensures Parse(encoded) == Some(parsed) <==>
            parsed == Parsed(MEMORY, TIME, THREADS, parsed.salt, parsed.derivedKey)
            && exists version, parameters :: Accepts(encoded, version, parameters, parsed.salt, parsed.derivedKey)
  {
    if Parse(encoded) == Some(parsed) {
      ParsedIsAccepted(encoded);
    }
    forall version, parameters | Accepts(encoded, version, parameters, parsed.salt, parsed.derivedKey)
      ensures Parse(encoded) == Some(Parsed(MEMORY, TIME, THREADS, parsed.salt, parsed.derivedKey))
    {
      AcceptedParses(encoded, version, parameters, parsed.salt, parsed.derivedKey);
    }
  }

  lemma PrintedField(name: string, value: nat, limit: nat)
    requires value < limit
    ensures NamedUint(PrintField(name, value), name, limit) == Some(value)
  {
    assert PrintField(name, value)[|name + "="|..] == PrintNat(value);
  }

  lemma PrintedList(m: string, t: string, p: string)
    requires ParameterOf(m) == Memory && ParameterOf(t) == Time && ParameterOf(p) == Threads
    requires Without(m, ',') && Without(t, ',') && Without(p, ',')
    ensures IsParameterList(m + "," + (t + "," + p))
  {
    SplitWithout(p, ',');
    SplitPrefix(t, p, ',');
    SplitPrefix(m, t + "," + p, ',');
    assert Split(m + "," + (t + "," + p), ',') == [m, t, p];
  }

  lemma PrintedParameters()
    ensures IsParameterList(PrintParameters())
  {
    var m, t, p := PrintField("m", MEMORY), PrintField("t", TIME), PrintField("p", THREADS);
    PrintedField("m", MEMORY, UINT32_LIMIT);
    PrintedField("t", TIME, UINT32_LIMIT);
    PrintedField("p", THREADS, UINT8_LIMIT);
    assert t[0] == 't' && p[0] == 'p';
    NamedUintWithout(m, "m", UINT32_LIMIT, ',');
    NamedUintWithout(t, "t", UINT32_LIMIT, ',');
    NamedUintWithout(p, "p", UINT8_LIMIT, ',');
    PrintedList(m, t, p);
  }

  lemma PrintedLengths()
    ensures |PrintNat(VERSION)| == 2 && |PrintNat(MEMORY)| == 5 && |PrintNat(TIME)| == 1 && |PrintNat(THREADS)| == 1
  {
    assert |PrintNat(1)| == 1 && |PrintNat(6)| == 1;
    assert |PrintNat(65)| == 2;
    assert |PrintNat(655)| == 3;
    assert |PrintNat(6553)| == 4;
  }

  lemma PrintLength(salt: seq<byte>, key: seq<byte>)
    requires |salt| == SALT_LENGTH && |key| == KEY_LENGTH
    ensures |Print(salt, key)| == 118
  {
    PrintedLengths();
    assert |PrintField("v", VERSION)| == 4 && |PrintParameters()| == 15;
    assert |Encode(salt)| == 43 && |Encode(key)| == 43;
  }

  lemma PrintAccepted(salt: seq<byte>, key: seq<byte>)
    requires |salt| == SALT_LENGTH && |key| == KEY_LENGTH
    ensures Accepts(Print(salt, key), PrintField("v", VERSION), PrintParameters(), salt, key)
  {
    PrintLength(salt, key);
    PrintedParameters();
    PrintedField("v", VERSION, UINT32_LIMIT);
  }

  /** Parsing inverts printing for every salt and key of 32 bytes; a printed hash has 118 bytes. */
  lemma ParsePrint(salt: seq<byte>, key: seq<byte>)
    requires |salt| == SALT_LENGTH && |key| == KEY_LENGTH
    ensures Parse(Print(salt, key)) == Some(Parsed(MEMORY, TIME, THREADS, salt, key))
    ensures |Print(salt, key)| == 118
  {
    PrintLength(salt, key);
    PrintAccepted(salt, key);
    AcceptedParses(Print(salt, key), PrintField("v", VERSION), PrintParameters(), salt, key);
  }

  /** What a stored hash looks like. */
  lemma PrintIs(salt: seq<byte>, key: seq<byte>)
    ensures Print(salt, key) == "$argon2id$v=19$m=65536,t=3,p=4$" + Encode(salt) + "$" + Encode(key)
  {
    PrintedHead();
    Regroup(ALGORITHM, PrintField("v", VERSION), PrintParameters(), Encode(salt) + "$" + Encode(key));
    Append("$argon2id$v=19$m=65536,t=3,p=4$", Encode(salt), "$" + Encode(key));
  }

  lemma Regroup(a: string, b: string, c: string, rest: string)
    ensures "" + "$" + (a + "$" + (b + "$" + (c + "$" + rest))) == ("$" + a + "$" + b + "$" + c + "$") + rest
  {
  }

  lemma Append(head: string, a: string, b: string)
    ensures head + (a + b) == head + a + b
  {
  }

  lemma LastDigit(front: nat, d: nat)
    requires front > 0 && d < 10
    ensures PrintNat(10 * front + d) == PrintNat(front) + [('0' as int + d) as char]
  {
  }

  lemma PrintedNumbers()
    ensures PrintNat(19) == "19" && PrintNat(65536) == "65536" && PrintNat(3) == "3" && PrintNat(4) == "4"
  {
    LastDigit(1, 9);
    LastDigit(6, 5);
    LastDigit(65, 5);
    LastDigit(655, 3);
    LastDigit(6553, 6);
  }

  lemma PrintedHead()
    ensures "$" + ALGORITHM + "$" + PrintField("v", VERSION) + "$" + PrintParameters() + "$" == "$argon2id$v=19$m=65536,t=3,p=4$"
  {
    PrintedNumbers();
  }

  function Reprint(encoded: string): string {
    match Parse(encoded)
    case Some(parsed) => Print(parsed.salt, parsed.derivedKey)
    case None => encoded
  }

  /** Reprinting keeps what a hash parses to, and is a normal form: two accepted
      strings have the same reprint exactly when they parse to the same value. */
  lemma ReprintIsNormalForm(a: string, b: string)
    requires Parse(a).Some? && Parse(b).Some?
    ensures Parse(Reprint(a)) == Parse(a)
    ensures Reprint(Reprint(a)) == Reprint(a)
    ensures Reprint(a) == Reprint(b) <==> Parse(a) == Parse(b)
  {
    ParsePrint(Parse(a).value.salt, Parse(a).value.derivedKey);
    ParsePrint(Parse(b).value.salt, Parse(b).value.derivedKey);
  }

  /** A field of the hash and the 32 bytes it stands for determine each other. */
  lemma FieldBijection(encoded: string, bytes: seq<byte>)
    requires |bytes| == SALT_LENGTH
    ensures FixedField(encoded, SALT_LENGTH, SALT_LENGTH) == Some(bytes) <==> encoded == Encode(bytes)
    ensures |Encode(bytes)| == 43
  {
    DecodeEncode(bytes);
    if Decode(encoded).Some? {
      EncodeDecode(encoded);
    }
  }
}
