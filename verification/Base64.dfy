/** Standard base64 without padding (sections 3.2, 3.5 and 4 of RFC 4648), decoded
    strictly: the unused low bits of the last character must be zero. */
module Base64 {
  import opened Domain

  type byte = b: int | 0 <= b < 256
  type sextet = v: int | 0 <= v < 64

  predicate IsBase64Char(c: char) {
    'A' <= c <= 'Z' || 'a' <= c <= 'z' || '0' <= c <= '9' || c == '+' || c == '/'
  }

  function CharOf(v: sextet): (c: char)
    ensures IsBase64Char(c)
  {
    if v < 26 then 'A' + v as char
    else if v < 52 then 'a' + (v - 26) as char
    else if v < 62 then '0' + (v - 52) as char
    else if v == 62 then '+'
    else '/'
  }

  function ValueOf(c: char): (v: sextet)
    requires IsBase64Char(c)
  {
    if 'A' <= c <= 'Z' then c as int - 'A' as int
    else if 'a' <= c <= 'z' then c as int - 'a' as int + 26
    else if '0' <= c <= '9' then c as int - '0' as int + 52
    else if c == '+' then 62
    else 63
  }

  lemma ValueOfCharOf(v: sextet)
    ensures ValueOf(CharOf(v)) == v
  {
  }

  lemma CharOfValueOf(c: char)
    requires IsBase64Char(c)
    ensures CharOf(ValueOf(c)) == c
  {
  }

  function EncodedLength(n: nat): nat {
    n / 3 * 4 + (n % 3 * 8 + 5) / 6
  }

  // ----- bytes and sextets -----

  function Sextets(bytes: seq<byte>): (values: seq<sextet>)
    ensures |values| == EncodedLength(|bytes|)
    decreases |bytes|
  {
    if |bytes| == 0 then []
    else if |bytes| == 1 then [bytes[0] / 4, bytes[0] % 4 * 16]
    else if |bytes| == 2 then [bytes[0] / 4, bytes[0] % 4 * 16 + bytes[1] / 16, bytes[1] % 16 * 4]
    else Split3(bytes[0], bytes[1], bytes[2]) + Sextets(bytes[3..])
  }

  function Split3(a: byte, b: byte, c: byte): (values: seq<sextet>)
    ensures |values| == 4
  {
    [a / 4, a % 4 * 16 + b / 16, b % 16 * 4 + c / 64, c % 64]
  }

  function Merge4(v0: sextet, v1: sextet, v2: sextet, v3: sextet): (bytes: seq<byte>)
    ensures |bytes| == 3
  {
    [v0 * 4 + v1 / 16, v1 % 16 * 16 + v2 / 4, v2 % 4 * 64 + v3]
  }

  function Bytes(values: seq<sextet>): (result: Option<seq<byte>>)
    decreases |values|
  {
    if |values| == 0 then Some([])
    else if |values| == 1 then None
    else if |values| == 2 then
      if values[1] % 16 != 0 then None else Some(Merge4(values[0], values[1], 0, 0)[..1])
    else if |values| == 3 then
      if values[2] % 4 != 0 then None else Some(Merge4(values[0], values[1], values[2], 0)[..2])
    else
      var rest := Bytes(values[4..]);
      if rest.None? then None
      else Some(Merge4(values[0], values[1], values[2], values[3]) + rest.value)
  }

  lemma MergeSplit(a: byte, b: byte, c: byte)
    ensures var v := Split3(a, b, c); Merge4(v[0], v[1], v[2], v[3]) == [a, b, c]
  {
  }

  lemma SplitMerge(v0: sextet, v1: sextet, v2: sextet, v3: sextet)
    ensures var b := Merge4(v0, v1, v2, v3); Split3(b[0], b[1], b[2]) == [v0, v1, v2, v3]
  {
    var b := Merge4(v0, v1, v2, v3);
    assert b[0] / 4 == v0 && b[0] % 4 == v1 / 16;
    assert b[1] / 16 == v1 % 16 && b[1] % 16 == v2 / 4;
    assert b[2] / 64 == v2 % 4 && b[2] % 64 == v3;
  }

  lemma {:induction false} BytesSextets(bytes: seq<byte>)
    ensures Bytes(Sextets(bytes)) == Some(bytes)
    decreases |bytes|
  {
    if |bytes| == 0 {
    } else if |bytes| == 1 {
      MergeSplit(bytes[0], 0, 0);
      assert bytes == [bytes[0], 0, 0][..1];
    } else if |bytes| == 2 {
      MergeSplit(bytes[0], bytes[1], 0);
      assert bytes == [bytes[0], bytes[1], 0][..2];
    } else {
      MergeSplit(bytes[0], bytes[1], bytes[2]);
      BytesSextets(bytes[3..]);
      assert Sextets(bytes)[4..] == Sextets(bytes[3..]);
      assert bytes == [bytes[0], bytes[1], bytes[2]] + bytes[3..];
    }
  }

  lemma {:induction false} SextetsBytes(values: seq<sextet>)
    requires Bytes(values).Some?
    ensures Sextets(Bytes(values).value) == values
    decreases |values|
  {
    var bytes := Bytes(values).value;
    if |values| == 2 {
      SplitMerge(values[0], values[1], 0, 0);
    } else if |values| == 3 {
      SplitMerge(values[0], values[1], values[2], 0);
    } else if |values| >= 4 {
      SplitMerge(values[0], values[1], values[2], values[3]);
      SextetsBytes(values[4..]);
      assert bytes[3..] == Bytes(values[4..]).value;
      assert values == values[..4] + values[4..];
      assert values[..4] == [values[0], values[1], values[2], values[3]];
    }
  }

  // ----- sextets and characters -----

  predicate IsAlphabet(s: string) {
    forall i :: 0 <= i < |s| ==> IsBase64Char(s[i])
  }

  function Chars(values: seq<sextet>): (s: string)
    ensures |s| == |values| && IsAlphabet(s)
  {
    seq(|values|, i requires 0 <= i < |values| => CharOf(values[i]))
  }

  function Values(s: string): (values: seq<sextet>)
    requires IsAlphabet(s)
    ensures |values| == |s|
  {
    seq(|s|, i requires 0 <= i < |s| => ValueOf(s[i]))
  }

  lemma ValuesChars(values: seq<sextet>)
    ensures Values(Chars(values)) == values
  {
    forall i | 0 <= i < |values| ensures Values(Chars(values))[i] == values[i] {
      ValueOfCharOf(values[i]);
    }
  }

  lemma CharsValues(s: string)
    requires IsAlphabet(s)
    ensures Chars(Values(s)) == s
  {
    forall i | 0 <= i < |s| ensures Chars(Values(s))[i] == s[i] {
      CharOfValueOf(s[i]);
    }
  }

  // ----- the codec -----

  function Encode(bytes: seq<byte>): (s: string)
    ensures |s| == EncodedLength(|bytes|) && IsAlphabet(s)
  {
    Chars(Sextets(bytes))
  }

  function Decode(s: string): (result: Option<seq<byte>>) {
    if IsAlphabet(s) then Bytes(Values(s)) else None
  }

  lemma DecodeEncode(bytes: seq<byte>)
    ensures Decode(Encode(bytes)) == Some(bytes)
  {
    ValuesChars(Sextets(bytes));
    BytesSextets(bytes);
  }

  /** Strictness: a string that decodes is the encoding of what it decodes to. */
  lemma EncodeDecode(s: string)
    requires Decode(s).Some?
    ensures Encode(Decode(s).value) == s
  {
    SextetsBytes(Values(s));
    CharsValues(s);
  }

  /** Test vectors of section 10 of RFC 4648, without their padding. */
  lemma TestVectors()
    ensures Encode([102]) == "Zg" && Encode([102, 111]) == "Zm8" && Encode([102, 111, 111]) == "Zm9v"
    ensures Encode([102, 111, 111, 98, 97, 114]) == "Zm9vYmFy"
  {
    assert Sextets([102]) == [25, 32];
    assert Sextets([102, 111]) == [25, 38, 60];
    ThreeBytes();
    SixBytes();
  }

  lemma ThreeBytes()
    ensures Encode([102, 111, 111]) == "Zm9v"
  {
    assert [102, 111, 111][3..] == [];
    assert Sextets([102, 111, 111]) == [25, 38, 61, 47];
  }

  lemma SixBytes()
    ensures Encode([102, 111, 111, 98, 97, 114]) == "Zm9vYmFy"
  {
    var foobar: seq<byte> := [102, 111, 111, 98, 97, 114];
    assert foobar[3..] == [98, 97, 114];
    assert [98, 97, 114][3..] == [];
    assert Sextets([98, 97, 114]) == [24, 38, 5, 50];
    assert Sextets(foobar) == [25, 38, 61, 47, 24, 38, 5, 50];
  }

  /** The alphabet in order: upper case, lower case, digits, `+`, `/`. */
  lemma Alphabet(v: sextet)
    ensures CharOf(0) == 'A' && CharOf(25) == 'Z' && CharOf(26) == 'a' && CharOf(51) == 'z'
    ensures CharOf(52) == '0' && CharOf(61) == '9' && CharOf(62) == '+' && CharOf(63) == '/'
    ensures v !in {25, 51, 61, 62, 63} ==> CharOf(v + 1) as int == CharOf(v) as int + 1
  {
  }

  /** Four characters carry three bytes as one number, most significant first. */
  lemma GroupsAreBigEndian(a: byte, b: byte, c: byte)
    ensures var v := Sextets([a, b, c]);
            && |v| == 4
            && v[0] as int * 262144 + v[1] as int * 4096 + v[2] as int * 64 + v[3] as int
               == a as int * 65536 + b as int * 256 + c as int
  {
    assert [a, b, c][3..] == [];
    assert Sextets([a, b, c]) == Split3(a, b, c) + Sextets([]);
  }
}
