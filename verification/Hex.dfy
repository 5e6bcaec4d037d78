/** include/dottorrent/hex.hpp: bytes to pairs of hexadecimal digits and back. */
module Hex {
  import opened Options
  import opened Digests

  /** A character of the source: one octet. */
  type Octet = c: char | c as int < 256 witness 'a'

  type Text = seq<Octet>

  const INVALID: byte := 255

  function LowerDigit(n: nat): Octet
    requires n < 16
  {
    "0123456789abcdef"[n]
  }

  function UpperDigit(n: nat): Octet
    requires n < 16
  {
    "0123456789ABCDEF"[n]
  }

  /** The value of a digit in either case, or INVALID. */
  function DigitValue(c: Octet): byte {
    if '0' <= c <= '9' then c as int - '0' as int
    else if 'a' <= c <= 'f' then c as int - 'a' as int + 10
    else if 'A' <= c <= 'F' then c as int - 'A' as int + 10
    else INVALID
  }

  /** `generate_hex_to_int_table`: filled with INVALID, then three runs of digits written over it. */
  method GenerateTable() returns (table: array<byte>)
    ensures fresh(table) && table.Length == 256
    ensures forall c: Octet :: table[c as int] == DigitValue(c)
  {
    table := new byte[256];
    for i := 0 to 256
      invariant forall j :: 0 <= j < i ==> table[j] == INVALID
    {
      table[i] := INVALID;
    }
    WriteRun(table, '0', 10, 0);
    WriteRun(table, 'a', 6, 10);
    WriteRun(table, 'A', 6, 10);
  }

  method WriteRun(table: array<byte>, start: Octet, count: nat, value: nat)
    requires table.Length == 256 && start as int + count <= 256 && value + count <= 256
    modifies table
    ensures forall j :: 0 <= j < 256 ==>
              table[j] == if start as int <= j < start as int + count then value + j - start as int else old(table[j])
  {
    for k := 0 to count
      invariant forall j :: 0 <= j < 256 ==>
                  table[j] == if start as int <= j < start as int + k then value + j - start as int else old(table[j])
    {
      table[start as int + k] := value + k;
    }
  }

  function HexToByte(a: Octet, b: Octet): Option<byte> {
    if DigitValue(a) == INVALID || DigitValue(b) == INVALID then None
    else Some(DigitValue(a) * 16 + DigitValue(b))
  }

  lemma DigitsRoundTrip(v: byte)
    ensures HexToByte(LowerDigit(v / 16), LowerDigit(v % 16)) == Some(v)
    ensures HexToByte(UpperDigit(v / 16), UpperDigit(v % 16)) == Some(v)
  {
    DigitOf(v / 16);
    DigitOf(v % 16);
  }

  lemma DigitOf(n: nat)
    requires n < 16
    ensures DigitValue(LowerDigit(n)) == n && DigitValue(UpperDigit(n)) == n
  {
  }

  /** The digits as characters. */
  lemma DigitCharacters(n: nat)
    requires n < 16
    ensures LowerDigit(n) as int == if n < 10 then '0' as int + n else 'a' as int + n - 10
    ensures UpperDigit(n) as int == if n < 10 then '0' as int + n else 'A' as int + n - 10
  {
  }

  function Lower(c: Octet): Octet {
    if 'A' <= c <= 'F' then ((c as int) + 32) as char else c
  }

  lemma DigitIsLower(c: Octet)
    requires DigitValue(c) != INVALID
    ensures DigitValue(c) < 16 && LowerDigit(DigitValue(c)) == Lower(c)
  {
  }

  lemma PairBack(a: Octet, b: Octet, v: byte)
    requires HexToByte(a, b) == Some(v)
    ensures LowerDigit(v / 16) == Lower(a) && LowerDigit(v % 16) == Lower(b)
  {
    DigitIsLower(a);
    DigitIsLower(b);
    hide Lower, LowerDigit, DigitValue;
    var high, low := DigitValue(a), DigitValue(b);
    assert v == high * 16 + low;
    assert v / 16 == high && v % 16 == low;
  }

  // ---- Strings -------------------------------------------------------------------------------------------------

  function HexString(data: seq<byte>): Text {
    if data == [] then []
    else HexString(data[..|data| - 1]) + [LowerDigit(data[|data| - 1] / 16), LowerDigit(data[|data| - 1] % 16)]
  }

  lemma {:induction false} HexStringAt(data: seq<byte>, i: nat)
    requires i < |data|
    ensures |HexString(data)| == 2 * |data|
    ensures HexString(data)[2 * i] == LowerDigit(data[i] / 16) && HexString(data)[2 * i + 1] == LowerDigit(data[i] % 16)
  {
    var n := |data| - 1;
    if i < n {
      HexStringAt(data[..n], i);
    } else if n > 0 {
      HexStringAt(data[..n], 0);
    }
  }

  /** `to_hexadecimal_string`: writes into a blank string of twice the length. */
  method ToHexadecimalString(data: seq<byte>) returns (s: Text)
    ensures s == HexString(data)
  {
    s := seq(2 * |data|, _ => ' ');
    var i := 0;
    assert HexString(data[..0]) == [];
    while i < |data|
      invariant i <= |data| && |s| == 2 * |data|
      invariant s[..2 * i] == HexString(data[..i])
    {
      assert data[..i + 1][..i] == data[..i];
      var high, low := LowerDigit(data[i] / 16), LowerDigit(data[i] % 16);
      ghost var before := s;
      s := s[2 * i := high][2 * i + 1 := low];
      assert s[..2 * (i + 1)] == before[..2 * i] + [high, low];
      i := i + 1;
    }
    assert s[..2 * |data|] == s && data[..|data|] == data;
  }

  ghost predicate AllDigits(s: Text, n: nat)
    requires 2 * n <= |s|
  {
    forall i :: 0 <= i < n ==> HexToByte(s[2 * i], s[2 * i + 1]).Some?
  }

  /** The bytes the first n pairs of digits stand for. */
  ghost predicate Decodes(s: Text, data: seq<byte>)
    requires 2 * |data| <= |s|
  {
    forall i :: 0 <= i < |data| ==> HexToByte(s[2 * i], s[2 * i + 1]) == Some(data[i])
  }

  /** `from_hexadecimal_string<N>`; the last character of an odd-length string is not looked at. */
  method FromHexadecimalString(size: nat, s: Text) returns (data: Option<seq<byte>>)
    ensures data.Some? <==> |s| / 2 == size && AllDigits(s, size)
    ensures data.Some? ==> |data.value| == size && Decodes(s, data.value)
  {
    if |s| / 2 != size {
      return None;
    }
    var bytes: seq<byte> := [];
    while |bytes| < size
      invariant |bytes| <= size
      invariant Decodes(s, bytes)
      decreases size - |bytes|
    {
      var value := HexToByte(s[2 * |bytes|], s[2 * |bytes| + 1]);
      if value.None? {
        return None;
      }
      bytes := bytes + [value.value];
    }
    return Some(bytes);
  }

  /** Writing bytes and reading them back. */
  lemma HexRoundTrip(data: seq<byte>, read: seq<byte>)
    requires |HexString(data)| == 2 * |read| && Decodes(HexString(data), read)
    ensures read == data
  {
    HexLength(data);
    forall i | 0 <= i < |data| ensures read[i] == data[i] {
      HexStringAt(data, i);
      DigitsRoundTrip(data[i]);
    }
  }

  lemma {:induction false} HexLength(data: seq<byte>)
    ensures |HexString(data)| == 2 * |data|
    ensures AllDigits(HexString(data), |data|)
  {
    if data != [] {
      HexStringAt(data, 0);
    }
    forall i | 0 <= i < |data| ensures HexToByte(HexString(data)[2 * i], HexString(data)[2 * i + 1]).Some? {
      HexStringAt(data, i);
      DigitsRoundTrip(data[i]);
    }
  }

  /** Reading digits and writing them back gives the same string in lower case. */
  lemma ReadThenWrite(s: Text, data: seq<byte>)
    requires |s| == 2 * |data| && Decodes(s, data)
    ensures |HexString(data)| == |s| && forall k :: 0 <= k < |s| ==> HexString(data)[k] == Lower(s[k])
  {
    HexLength(data);
    forall k | 0 <= k < |s| ensures HexString(data)[k] == Lower(s[k]) {
      hide HexToByte, Lower, LowerDigit, HexString;
      var i := k / 2;
      HexStringAt(data, i);
      PairBack(s[2 * i], s[2 * i + 1], data[i]);
      assert k == 2 * i || k == 2 * i + 1;
    }
  }
}
