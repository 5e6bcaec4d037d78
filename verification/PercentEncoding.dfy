/** include/dottorrent/percent_encoding.hpp: percent-encoding as in sections 2.1 and 2.3 of RFC 3986. */
module PercentEncoding {
  import opened Options
  import opened Digests
  import opened Hex

  predicate IsNumeric(c: Octet) {
    '0' <= c <= '9'
  }

  predicate IsAlpha(c: Octet) {
    'A' <= c <= 'Z' || 'a' <= c <= 'z'
  }

  predicate IsAlphanumerical(c: Octet) {
    IsNumeric(c) || IsAlpha(c)
  }

  predicate IsUnreserved(c: Octet) {
    IsNumeric(c) || IsAlpha(c) || c == '-' || c == '.' || c == '_' || c == '~'
  }

  /** The unreserved characters of section 2.3 of RFC 3986. */
  lemma UnreservedCharacters(c: Octet)
    ensures IsUnreserved(c) <==>
            || c in "ABCDEFGHIJKLMNOPQRSTUVWXYZ" || c in "abcdefghijklmnopqrstuvwxyz" || c in "0123456789"
            || c in "-._~"
  {
    UpperCaseLetters(c);
    LowerCaseLetters(c);
    Digits(c);
  }

  lemma UpperCaseLetters(c: Octet)
    ensures 'A' <= c <= 'Z' <==> c in "ABCDEFGHIJKLMNOPQRSTUVWXYZ"
  {
  }

  lemma LowerCaseLetters(c: Octet)
    ensures 'a' <= c <= 'z' <==> c in "abcdefghijklmnopqrstuvwxyz"
  {
  }

  lemma Digits(c: Octet)
    ensures IsNumeric(c) <==> c in "0123456789"
  {
  }

  function EncodeChar(c: Octet): Text {
    if IsUnreserved(c) then [c] else ['%', UpperDigit(c as int / 16), UpperDigit(c as int % 16)]
  }

  function Encode(s: Text): Text {
    if s == [] then [] else EncodeChar(s[0]) + Encode(s[1..])
  }

  lemma {:induction false} EncodeAppend(a: Text, b: Text)
    ensures Encode(a + b) == Encode(a) + Encode(b)
  {
    hide EncodeChar;
    if a == [] {
      assert a + b == b;
    } else {
      EncodeAppend(a[1..], b);
      assert (a + b)[1..] == a[1..] + b;
      assert EncodeChar(a[0]) + (Encode(a[1..]) + Encode(b)) == Encode(a) + Encode(b);
    }
  }

  /** Any other character becomes a percent sign and its two digits, letters in upper case. */
  lemma EscapedCharacter(c: Octet)
    requires !IsUnreserved(c)
    ensures var e := Encode([c]);
            && |e| == 3 && e[0] == '%' && HexToByte(e[1], e[2]) == Some(c as int)
            && e[1] in "0123456789ABCDEF" && e[2] in "0123456789ABCDEF"
  {
    EncodeOne(c);
    DigitsRoundTrip(c as int);
    UpperDigits(c as int / 16);
    UpperDigits(c as int % 16);
    hide UpperDigit, HexToByte;
  }

  lemma UpperDigits(n: nat)
    requires n < 16
    ensures UpperDigit(n) in "0123456789ABCDEF"
  {
  }

  method PercentEncode(s: Text) returns (out: Text)
    ensures out == Encode(s)
  {
    out := [];
    var i := 0;
    assert s[..0] == [];
    while i < |s|
      invariant i <= |s| && out == Encode(s[..i])
    {
      assert s[..i + 1] == s[..i] + [s[i]];
      EncodeAppend(s[..i], [s[i]]);
      EncodeOne(s[i]);
      out := out + EncodeChar(s[i]);
      i := i + 1;
    }
    assert s[..|s|] == s;
  }

  lemma EncodeOne(c: Octet)
    ensures Encode([c]) == EncodeChar(c)
  {
    assert [c][1..] == [];
  }

  // ---- Decoding ------------------------------------------------------------------------------------------------

  datatype Status = Success | NonHexEncodedCharacter | IncompleteEncodedCharacter

  /** Where the decoder is: whether it is inside an escape, the digits of it so far, and what it has written. */
  datatype Decoder = Decoder(copying: bool, buffer: Text, out: Text)

  /**
   * The byte of an escape. A letter that is not a hexadecimal digit leaves the result unset; `junk` stands for what is
   * written then, by position.
   */
  function Unescape(a: Octet, b: Octet, junk: Octet): Octet {
    match HexToByte(a, b)
    case Some(v) => v as char
    case None => junk
  }

  /** One character; None when decoding stops. */
  function Next(d: Decoder, c: Octet, junk: nat -> Octet): Option<Decoder> {
    if c == '%' then Some(d.(copying := true))
    else if !d.copying then Some(d.(out := d.out + [c]))
    else if !IsAlphanumerical(c) then None
    else if |d.buffer| == 1 then Some(Decoder(false, [], d.out + [Unescape(d.buffer[0], c, junk(|d.out|))]))
    else Some(d.(buffer := d.buffer + [c]))
  }

  function Run(d: Decoder, s: Text, junk: nat -> Octet): (Status, Text)
    decreases |s|
  {
    if s == [] then (if d.buffer != [] then IncompleteEncodedCharacter else Success, d.out)
    else match Next(d, s[0], junk)
         case None => (NonHexEncodedCharacter, d.out)
         case Some(next) => Run(next, s[1..], junk)
  }

  const Start := Decoder(false, [], [])

  /** What `percent_decode` leaves in its output string; the status is dropped. */
  function Decode(s: Text, junk: nat -> Octet): Text {
    Run(Start, s, junk).1
  }

  method PercentDecode(s: Text, junk: nat -> Octet) returns (status: Status, out: Text)
    ensures (status, out) == Run(Start, s, junk)
  {
    var copying := false;
    var buffer: Text := [];
    out := [];
    var i := 0;
    assert s[0..] == s;
    while i < |s|
      invariant i <= |s|
      invariant Run(Start, s, junk) == Run(Decoder(copying, buffer, out), s[i..], junk)
      invariant |buffer| <= 1 && (buffer != [] ==> copying)
    {
      var c := s[i];
      assert s[i..][0] == c && s[i..][1..] == s[i + 1..];
      i := i + 1;
      if c == '%' {
        copying := true;
        continue;
      }
      if copying {
        if !IsAlphanumerical(c) {
          return NonHexEncodedCharacter, out;
        }
        buffer := buffer + [c];
        if |buffer| == 2 {
          out := out + [Unescape(buffer[0], buffer[1], junk(|out|))];
          copying := false;
          buffer := [];
        }
      } else {
        out := out + [c];
      }
    }
    status := if buffer != [] then IncompleteEncodedCharacter else Success;
  }

  // ---- What decoding means -------------------------------------------------------------------------------------

  /** Text made of characters and complete escapes. */
  ghost predicate WellFormed(s: Text) {
    s != [] ==>
      if s[0] != '%' then WellFormed(s[1..])
      else |s| >= 3 && HexToByte(s[1], s[2]).Some? && WellFormed(s[3..])
  }

  /** The octets a well-formed text stands for: section 2.1 of RFC 3986. */
  ghost function Meaning(s: Text): Text
    requires WellFormed(s)
  {
    if s == [] then []
    else if s[0] != '%' then [s[0]] + Meaning(s[1..])
    else [HexToByte(s[1], s[2]).value as char] + Meaning(s[3..])
  }

  lemma DigitIsAlphanumerical(c: Octet)
    requires DigitValue(c) != INVALID
    ensures IsAlphanumerical(c) && c != '%'
  {
  }

  lemma RunEscape(out: Text, s: Text, junk: nat -> Octet)
    requires |s| >= 3 && s[0] == '%' && HexToByte(s[1], s[2]).Some?
    ensures Run(Decoder(false, [], out), s, junk)
            == Run(Decoder(false, [], out + [HexToByte(s[1], s[2]).value as char]), s[3..], junk)
  {
    DigitIsAlphanumerical(s[1]);
    DigitIsAlphanumerical(s[2]);
    var d0, d1 := Decoder(false, [], out), Decoder(true, [], out);
    var d2, d3 := Decoder(true, [s[1]], out), Decoder(false, [], out + [HexToByte(s[1], s[2]).value as char]);
    assert Next(d0, s[0], junk) == Some(d1);
    assert Next(d1, s[1], junk) == Some(d2) by { assert [] + [s[1]] == [s[1]]; }
    assert Next(d2, s[2], junk) == Some(d3);
    hide Next, HexToByte;
    assert s[1..][0] == s[1] && s[1..][1..] == s[2..];
    assert s[2..][0] == s[2] && s[2..][1..] == s[3..];
    RunStep(d0, s, junk);
    RunStep(d1, s[1..], junk);
    RunStep(d2, s[2..], junk);
  }

  lemma RunPlain(out: Text, s: Text, junk: nat -> Octet)
    requires s != [] && s[0] != '%'
    ensures Run(Decoder(false, [], out), s, junk) == Run(Decoder(false, [], out + [s[0]]), s[1..], junk)
  {
    RunStep(Decoder(false, [], out), s, junk);
  }

  lemma RunStep(d: Decoder, s: Text, junk: nat -> Octet)
    requires s != [] && Next(d, s[0], junk).Some?
    ensures Run(d, s, junk) == Run(Next(d, s[0], junk).value, s[1..], junk)
  {
  }

  lemma MeaningPlain(s: Text)
    requires WellFormed(s) && s != [] && s[0] != '%'
    ensures WellFormed(s[1..]) && Meaning(s) == [s[0]] + Meaning(s[1..])
  {
  }

  lemma MeaningEscape(s: Text)
    requires WellFormed(s) && s != [] && s[0] == '%'
    ensures |s| >= 3 && HexToByte(s[1], s[2]).Some?
    ensures WellFormed(s[3..]) && Meaning(s) == [HexToByte(s[1], s[2]).value as char] + Meaning(s[3..])
  {
  }

  lemma AppendOne<T>(a: seq<T>, c: T, b: seq<T>)
    ensures (a + [c]) + b == a + ([c] + b)
  {
  }

  /** Well-formed text decodes to its meaning, without a failure and without unset octets. */
  lemma {:induction false} DecodesToMeaning(s: Text, out: Text, junk: nat -> Octet)
    requires WellFormed(s)
    ensures Run(Decoder(false, [], out), s, junk) == (Success, out + Meaning(s))
    decreases |s|
  {
    if s == [] {
      assert out + Meaning(s) == out;
    } else if s[0] != '%' {
      hide Run, Meaning;
      DecodesToMeaning(s[1..], out + [s[0]], junk);
      MeansPlain(s, out, junk);
    } else {
      hide Run, Meaning;
      DecodesToMeaning(s[3..], out + [HexToByte(s[1], s[2]).value as char], junk);
      MeansEscape(s, out, junk);
    }
  }

  lemma MeansPlain(s: Text, out: Text, junk: nat -> Octet)
    requires WellFormed(s) && s != [] && s[0] != '%'
    requires Run(Decoder(false, [], out + [s[0]]), s[1..], junk) == (Success, out + [s[0]] + Meaning(s[1..]))
    ensures Run(Decoder(false, [], out), s, junk) == (Success, out + Meaning(s))
  {
    hide Run, WellFormed, Meaning;
    MeaningPlain(s);
    RunPlain(out, s, junk);
    AppendOne(out, s[0], Meaning(s[1..]));
  }

  lemma MeansEscape(s: Text, out: Text, junk: nat -> Octet)
    requires WellFormed(s) && s != [] && s[0] == '%'
    requires var c := HexToByte(s[1], s[2]).value as char;
             Run(Decoder(false, [], out + [c]), s[3..], junk) == (Success, out + [c] + Meaning(s[3..]))
    ensures Run(Decoder(false, [], out), s, junk) == (Success, out + Meaning(s))
  {
    hide Run, WellFormed, Meaning, HexToByte;
    MeaningEscape(s);
    RunEscape(out, s, junk);
    AppendOne(out, HexToByte(s[1], s[2]).value as char, Meaning(s[3..]));
  }

  lemma {:induction false} EncodedMeans(s: Text)
    ensures WellFormed(Encode(s)) && Meaning(Encode(s)) == s
  {
    if s != [] {
      EncodedMeans(s[1..]);
      var e := Encode(s);
      var head, tail := EncodeChar(s[0]), Encode(s[1..]);
      assert e == head + tail && e[|head|..] == tail;
      if !IsUnreserved(s[0]) {
        DigitsRoundTrip(s[0] as int);
        assert e[0] == '%' && e[1] == UpperDigit(s[0] as int / 16) && e[2] == UpperDigit(s[0] as int % 16);
      }
      assert s == [s[0]] + s[1..];
    }
  }

  /** Decoding inverts encoding on every octet string. */
  lemma DecodeInvertsEncode(s: Text, junk: nat -> Octet)
    ensures Run(Start, Encode(s), junk) == (Success, s)
    ensures Decode(Encode(s), junk) == s
  {
    EncodedMeans(s);
    DecodesToMeaning(Encode(s), [], junk);
    assert [] + s == s;
  }

  /** Only unreserved characters, digits and percent signs are written. */
  lemma {:induction false} EncodedCharacters(s: Text)
    ensures forall c :: c in Encode(s) ==> IsUnreserved(c) || c == '%'
  {
    if s != [] {
      EncodedCharacters(s[1..]);
      if !IsUnreserved(s[0]) {
        UpperDigitIsUnreserved(s[0] as int / 16);
        UpperDigitIsUnreserved(s[0] as int % 16);
      }
    }
  }

  lemma UpperDigitIsUnreserved(n: nat)
    requires n < 16
    ensures IsUnreserved(UpperDigit(n))
  {
  }

  /** Unreserved text is not changed. */
  lemma {:induction false} EncodeKeepsUnreserved(s: Text)
    requires forall c :: c in s ==> IsUnreserved(c)
    ensures Encode(s) == s
  {
    if s != [] {
      EncodeKeepsUnreserved(s[1..]);
    }
  }

  /** Decoding never lengthens text, and a percent sign anywhere shortens it. */
  lemma {:induction false} DecodeShortens(d: Decoder, s: Text, junk: nat -> Octet)
    requires |d.buffer| <= 1
    ensures |Run(d, s, junk).1| <= |d.out| + |s|
    ensures '%' in s ==> |Run(d, s, junk).1| < |d.out| + |s|
    decreases |s|
  {
    if s != [] {
      var next := Next(d, s[0], junk);
      if next.Some? {
        DecodeShortens(next.value, s[1..], junk);
      }
    }
  }

  /** Text without percent signs decodes to itself. */
  lemma {:induction false} DecodePlain(s: Text, junk: nat -> Octet)
    requires '%' !in s
    ensures Decode(s, junk) == s
  {
    PlainMeans(s);
    DecodesToMeaning(s, [], junk);
    assert [] + s == s;
  }

  lemma {:induction false} PlainMeans(s: Text)
    requires '%' !in s
    ensures WellFormed(s) && Meaning(s) == s
  {
    if s != [] {
      PlainMeans(s[1..]);
      assert s == [s[0]] + s[1..];
    }
  }

  // ---- What decoding any text does -----------------------------------------------------------------------------

  /** A character as it stands, or the two characters of an escape. */
  datatype Token = Plain(c: Octet) | Escape(a: Octet, b: Octet)

  /** Percent signs in a row, and before the second character of an escape, count once. */
  function SkipPercents(s: Text): (r: Text)
    ensures |r| <= |s| && (s != [] && s[0] == '%' ==> |r| < |s|)
    ensures r != [] ==> r[0] != '%'
  {
    if s != [] && s[0] == '%' then SkipPercents(s[1..]) else s
  }

  /** The tokens a text begins with, and why it ends behind them. */
  function Scan(s: Text): (seq<Token>, Status)
    decreases |s|
  {
    if s == [] then ([], Success)
    else if s[0] != '%' then
      var rest := Scan(s[1..]);
      ([Plain(s[0])] + rest.0, rest.1)
    else
      var first := SkipPercents(s);
      if first == [] then ([], Success)
      else if !IsAlphanumerical(first[0]) then ([], NonHexEncodedCharacter)
      else
        var second := SkipPercents(first[1..]);
        if second == [] then ([], IncompleteEncodedCharacter)
        else if !IsAlphanumerical(second[0]) then ([], NonHexEncodedCharacter)
        else
          var rest := Scan(second[1..]);
          ([Escape(first[0], second[0])] + rest.0, rest.1)
  }

  function TokenOctet(t: Token, junk: Octet): Octet {
    match t
    case Plain(c) => c
    case Escape(a, b) => Unescape(a, b, junk)
  }

  /** What the tokens write from position `at` on. */
  function Octets(tokens: seq<Token>, at: nat, junk: nat -> Octet): Text {
    seq(|tokens|, i requires 0 <= i < |tokens| => TokenOctet(tokens[i], junk(at + i)))
  }

  /** No escape has characters that are no hexadecimal digits. */
  ghost predicate Determined(tokens: seq<Token>) {
    forall t :: t in tokens && t.Escape? ==> HexToByte(t.a, t.b).Some?
  }

  lemma OctetsOfFirst(t: Token, tokens: seq<Token>, out: Text, junk: nat -> Octet)
    ensures out + Octets([t] + tokens, |out|, junk)
         == out + [TokenOctet(t, junk(|out|))] + Octets(tokens, |out| + 1, junk)
  {
    hide TokenOctet;
  }

  lemma {:induction false} RunPercents(buffer: Text, out: Text, s: Text, junk: nat -> Octet)
    ensures Run(Decoder(true, buffer, out), s, junk) == Run(Decoder(true, buffer, out), SkipPercents(s), junk)
  {
    if s != [] && s[0] == '%' {
      RunPercents(buffer, out, s[1..], junk);
      RunStep(Decoder(true, buffer, out), s, junk);
    }
  }

  /** From a percent sign to the first character that is none. */
  lemma EnterEscape(out: Text, s: Text, junk: nat -> Octet)
    requires s != [] && s[0] == '%'
    ensures Run(Decoder(false, [], out), s, junk) == Run(Decoder(true, [], out), SkipPercents(s), junk)
  {
    RunStep(Decoder(false, [], out), s, junk);
    RunPercents([], out, s[1..], junk);
  }

  /** From the first character of an escape to the second. */
  lemma FirstOfEscape(out: Text, s: Text, junk: nat -> Octet)
    requires s != [] && IsAlphanumerical(s[0])
    ensures Run(Decoder(true, [], out), s, junk) == Run(Decoder(true, [s[0]], out), SkipPercents(s[1..]), junk)
  {
    assert [] + [s[0]] == [s[0]];
    RunStep(Decoder(true, [], out), s, junk);
    RunPercents([s[0]], out, s[1..], junk);
  }

  lemma SecondOfEscape(a: Octet, out: Text, s: Text, junk: nat -> Octet)
    requires s != [] && IsAlphanumerical(s[0])
    ensures Run(Decoder(true, [a], out), s, junk)
         == Run(Decoder(false, [], out + [TokenOctet(Escape(a, s[0]), junk(|out|))]), s[1..], junk)
  {
    RunStep(Decoder(true, [a], out), s, junk);
  }

  lemma EscapeBreaksOff(buffer: Text, out: Text, s: Text, junk: nat -> Octet)
    requires |buffer| <= 1 && (s != [] ==> s[0] != '%' && !IsAlphanumerical(s[0]))
    ensures Run(Decoder(true, buffer, out), s, junk)
         == (if s != [] then NonHexEncodedCharacter else if buffer != [] then IncompleteEncodedCharacter else Success,
             out)
  {
  }

  /**
   * Decoding any text gives the octets of the tokens it begins with, and the status says how it goes on; the octet of
   * an escape whose characters are no digits is whatever was in the uninitialised byte.
   */
  lemma {:induction false} DecodesTokens(s: Text, out: Text, junk: nat -> Octet)
    ensures Run(Decoder(false, [], out), s, junk) == (Scan(s).1, out + Octets(Scan(s).0, |out|, junk))
    decreases |s|, 1
  {
    hide Run, Octets, TokenOctet, IsAlphanumerical;
    if s == [] {
      NoTokens(out, junk);
    } else if s[0] != '%' {
      DecodesTokens(s[1..], out + [s[0]], junk);
      RunPlain(out, s, junk);
      OctetsOfFirst(Plain(s[0]), Scan(s[1..]).0, out, junk);
      PlainOctet(s[0], junk(|out|));
    } else {
      DecodesEscape(s, out, junk);
    }
  }

  lemma PlainOctet(c: Octet, junk: Octet)
    ensures TokenOctet(Plain(c), junk) == c
  {
  }

  lemma NoTokens(out: Text, junk: nat -> Octet)
    ensures Run(Decoder(false, [], out), [], junk) == (Success, out)
    ensures out + Octets([], |out|, junk) == out
  {
  }

  lemma {:induction false} DecodesEscape(s: Text, out: Text, junk: nat -> Octet)
    requires s != [] && s[0] == '%'
    ensures Run(Decoder(false, [], out), s, junk) == (Scan(s).1, out + Octets(Scan(s).0, |out|, junk))
    decreases |s|, 0
  {
    hide Run, Octets, TokenOctet, IsAlphanumerical;
    NoTokens(out, junk);
    EnterEscape(out, s, junk);
    var first := SkipPercents(s);
    if first == [] || !IsAlphanumerical(first[0]) {
      EscapeBreaksOff([], out, first, junk);
    } else {
      FirstOfEscape(out, first, junk);
      var second := SkipPercents(first[1..]);
      if second == [] || !IsAlphanumerical(second[0]) {
        EscapeBreaksOff([first[0]], out, second, junk);
      } else {
        SecondOfEscape(first[0], out, second, junk);
        var t := Escape(first[0], second[0]);
        DecodesTokens(second[1..], out + [TokenOctet(t, junk(|out|))], junk);
        OctetsOfFirst(t, Scan(second[1..]).0, out, junk);
      }
    }
  }

  /**
   * The result does not depend on uninitialised bytes exactly when every escape that is read to its end is of digits.
   */
  lemma DeterminedExactly(s: Text)
    ensures (forall j: nat -> Octet, k: nat -> Octet :: Run(Start, s, j) == Run(Start, s, k)) <==> Determined(Scan(s).0)
  {
    var tokens := Scan(s).0;
    hide Run, Scan, HexToByte;
    forall j: nat -> Octet
      ensures Run(Start, s, j) == (Scan(s).1, Octets(tokens, 0, j))
    {
      DecodesTokens(s, [], j);
      assert [] + Octets(tokens, 0, j) == Octets(tokens, 0, j);
    }
    if Determined(tokens) {
      forall j: nat -> Octet, k: nat -> Octet ensures Run(Start, s, j) == Run(Start, s, k) {
        assert Octets(tokens, 0, j) == Octets(tokens, 0, k);
      }
    } else {
      var t :| t in tokens && t.Escape? && HexToByte(t.a, t.b).None?;
      var i: nat :| i < |tokens| && tokens[i] == t;
      var zero: nat -> Octet := _ => '0';
      var one: nat -> Octet := _ => '1';
      assert Octets(tokens, 0, zero)[i] == '0' && Octets(tokens, 0, one)[i] == '1';
      assert Run(Start, s, zero) != Run(Start, s, one);
    }
  }

  /** Letters that are no digits: success, and an octet from nowhere. */
  lemma UnsetOctet(junk: nat -> Octet)
    ensures Run(Start, "%zz", junk) == (Success, [junk(0)])
  {
    DecodesTokens("%zz", [], junk);
    ScanOfLetters();
    hide Scan, Run;
    assert [] + Octets([Escape('z', 'z')], 0, junk) == [junk(0)];
  }

  lemma ScanOfLetters()
    ensures Scan("%zz") == ([Escape('z', 'z')], Success)
  {
    var s: Text, first: Text, second: Text := "%zz", "zz", "z";
    assert s[1..] == first && first[1..] == second && second[1..] == [];
    assert SkipPercents(first) == first && SkipPercents(s) == first && SkipPercents(second) == second;
    assert Scan([]) == ([], Success);
    assert [Escape('z', 'z')] + [] == [Escape('z', 'z')];
  }
}
