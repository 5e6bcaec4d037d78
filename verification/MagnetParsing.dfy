/** What the magnet parser makes of any text, field by field (src/magnet_uri.cpp:10-126). */
module MagnetParsing {
  import opened Options
  import opened Hex
  import opened PercentEncoding
  import opened MagnetUri
  import opened MagnetRoundTrip

  // ---- The splits ----------------------------------------------------------------------------------------------

  /** Pieces with a separator between each two. */
  function Glued(pieces: seq<Text>, separator: Octet): Text {
    if pieces == [] then []
    else if |pieces| == 1 then pieces[0]
    else pieces[0] + [separator] + Glued(pieces[1..], separator)
  }

  /**
   * A split text is its pieces glued together, up to one separator at its end, and no piece has a separator in it.
   */
  lemma {:induction false} SplitExactly(s: Text, separator: Octet)
    ensures forall p :: p in Split(s, separator) ==> separator !in p
    ensures var pieces := Split(s, separator);
            if s != [] && s[|s| - 1] == separator then s == Glued(pieces, separator) + [separator]
            else s == Glued(pieces, separator)
    decreases |s|
  {
    var k := IndexOf(s, separator);
    if k < |s| {
      var rest := Split(s[k + 1..], separator);
      SplitExactly(s[k + 1..], separator);
      assert Split(s, separator) == [s[..k]] + rest && (rest == [] <==> s[k + 1..] == []);
      hide Split;
      assert s == s[..k] + [separator] + s[k + 1..];
      if rest == [] {
        assert Glued([s[..k]], separator) == s[..k];
      } else {
        GluedFirst(s[..k], rest, separator);
        hide Glued;
        AppendThree(s[..k] + [separator], Glued(rest, separator), [separator]);
      }
    }
  }

  lemma GluedFirst(first: Text, rest: seq<Text>, separator: Octet)
    requires rest != []
    ensures Glued([first] + rest, separator) == first + [separator] + Glued(rest, separator)
  {
    assert ([first] + rest)[1..] == rest;
  }

  /** Pieces without separators, the last one not empty, are what splitting finds. */
  lemma {:induction false} SplitOfGlued(pieces: seq<Text>, separator: Octet)
    requires forall p :: p in pieces ==> separator !in p
    requires pieces != [] ==> pieces[|pieces| - 1] != []
    ensures Split(Glued(pieces, separator), separator) == pieces
  {
    if |pieces| == 1 {
      assert pieces[0] in pieces && pieces == [pieces[0]];
      NoIndex(pieces[0], separator);
    } else if |pieces| > 1 {
      var rest := Glued(pieces[1..], separator);
      SplitOfGlued(pieces[1..], separator);
      assert pieces[0] in pieces && pieces == [pieces[0]] + pieces[1..];
      hide Glued;
      FirstPiece(pieces[0], separator, rest);
    }
  }

  lemma NoIndex(s: Text, separator: Octet)
    requires separator !in s
    ensures IndexOf(s, separator) == |s|
  {
  }

  lemma FirstPiece(first: Text, separator: Octet, rest: Text)
    requires separator !in first
    ensures var s := first + [separator] + rest;
            IndexOf(s, separator) == |first| < |s| && s[..|first|] == first && s[|first| + 1..] == rest
  {
    var s := first + [separator] + rest;
    assert s[|first|] == separator;
    forall i | 0 <= i < |first| ensures s[i] == first[i] && s[i] != separator {
    }
  }

  /** A pair is cut at the first equals sign, and there is none exactly when there is no such sign. */
  lemma KeyValueExactly(part: Text)
    ensures SplitKeyValue(part).None? <==> '=' !in part
    ensures forall key: Text, value: Text ::
              SplitKeyValue(part) == Some((key, value)) <==> part == key + "=" + value && '=' !in key
  {
    var k := IndexOf(part, '=');
    if k < |part| {
      assert part == part[..k] + "=" + part[k + 1..];
      assert part[k] in part;
    }
    forall key: Text, value: Text
      ensures SplitKeyValue(part) == Some((key, value)) <==> part == key + "=" + value && '=' !in key
    {
      if part == key + "=" + value && '=' !in key {
        FirstPiece(key, '=', value);
      }
    }
  }

  // ---- The fields a list of parts gives ------------------------------------------------------------------------

  /** A part the parser accepts: a pair, and under `xl` a number. */
  predicate Readable(part: Text) {
    match SplitKeyValue(part)
    case None => false
    case Some((key, value)) => key == "xl" ==> FromChars(value).Some?
  }

  /** The decoded values that a part gives a key: one or none. */
  function ValueOf(part: Text, key: Text, junk: nat -> Octet): seq<Text> {
    match SplitKeyValue(part)
    case None => []
    case Some((k, value)) => if k == key then [Decode(value, junk)] else []
  }

  /** The values of a key, in the order of the parts. */
  function Values(parts: seq<Text>, key: Text, junk: nat -> Octet): seq<Text> {
    if parts == [] then [] else Values(parts[..|parts| - 1], key, junk) + ValueOf(parts[|parts| - 1], key, junk)
  }

  function SizeOf(part: Text): Option<nat> {
    match SplitKeyValue(part)
    case None => None
    case Some((key, value)) => if key == "xl" then FromChars(value) else None
  }

  /** The size in the last part that has one. */
  function LastSize(parts: seq<Text>, size: nat): nat {
    if parts == [] then size else SizeOf(parts[|parts| - 1]).UnwrapOr(LastSize(parts[..|parts| - 1], size))
  }

  /** The words of a keyword field. */
  function Words(part: Text, junk: nat -> Octet): seq<Text> {
    match SplitKeyValue(part)
    case None => []
    case Some((key, value)) => if key == "kt" then Split(Decode(value, junk), '+') else []
  }

  function Last(values: seq<Text>, default: Text): Text {
    if values == [] then default else values[|values| - 1]
  }

  ghost predicate HasWord(parts: seq<Text>, word: Text, junk: nat -> Octet) {
    exists p :: p in parts && word in Words(p, junk)
  }

  ghost predicate HoldsLists(m: Magnet, parts: seq<Text>, junk: nat -> Octet) {
    && m.topics == Values(parts, "xt", junk) && m.trackers == Values(parts, "tr", junk)
    && m.webSeeds == Values(parts, "ws", junk) && m.acceptableSources == Values(parts, "as", junk)
    && m.peers == Values(parts, "x.pe", junk)
  }

  ghost predicate HoldsTexts(m: Magnet, parts: seq<Text>, junk: nat -> Octet) {
    && m.displayName == Last(Values(parts, "dn", junk), []) && m.exactSource == Last(Values(parts, "xs", junk), [])
    && m.manifest == Last(Values(parts, "mt", junk), [])
  }

  /** What a magnet holds after these parts: lists in order, single values of the last part, all keywords. */
  ghost predicate Holds(m: Magnet, parts: seq<Text>, size: nat, junk: nat -> Octet) {
    && HoldsLists(m, parts, junk) && HoldsTexts(m, parts, junk) && m.size == LastSize(parts, size)
    && forall word :: word in m.keywords <==> HasWord(parts, word, junk)
  }

  lemma ValuesNext(parts: seq<Text>, part: Text, key: Text, junk: nat -> Octet)
    ensures Values(parts + [part], key, junk) == Values(parts, key, junk) + ValueOf(part, key, junk)
  {
    hide ValueOf;
    assert (parts + [part])[..|parts|] == parts;
  }

  lemma LastNext(values: seq<Text>, more: seq<Text>)
    ensures Last(values + more, []) == Last(more, Last(values, []))
  {
  }

  lemma ListsOfPart(m: Magnet, part: Text, junk: nat -> Octet)
    requires Readable(part)
    ensures SetPart(m, part, junk).Some?
    ensures var next := SetPart(m, part, junk).value;
            && next.topics == m.topics + ValueOf(part, "xt", junk)
            && next.trackers == m.trackers + ValueOf(part, "tr", junk)
            && next.webSeeds == m.webSeeds + ValueOf(part, "ws", junk)
            && next.acceptableSources == m.acceptableSources + ValueOf(part, "as", junk)
            && next.peers == m.peers + ValueOf(part, "x.pe", junk)
  {
    hide Decode, FromChars, Split, IndexOf, Elements;
  }

  lemma TextsOfPart(m: Magnet, part: Text, junk: nat -> Octet)
    requires Readable(part)
    ensures SetPart(m, part, junk).Some?
    ensures var next := SetPart(m, part, junk).value;
            && next.displayName == Last(ValueOf(part, "dn", junk), m.displayName)
            && next.exactSource == Last(ValueOf(part, "xs", junk), m.exactSource)
            && next.manifest == Last(ValueOf(part, "mt", junk), m.manifest)
  {
    hide Decode, FromChars, Split, IndexOf, Elements;
  }

  lemma OthersOfPart(m: Magnet, part: Text, junk: nat -> Octet)
    ensures SetPart(m, part, junk).Some? <==> Readable(part)
    ensures Readable(part) ==>
              var next := SetPart(m, part, junk).value;
              && next.size == SizeOf(part).UnwrapOr(m.size)
              && forall word :: word in next.keywords <==> word in m.keywords || word in Words(part, junk)
  {
    hide Decode, FromChars, Split, IndexOf;
  }

  /** One more part. */
  lemma HoldsNext(m: Magnet, parts: seq<Text>, part: Text, size: nat, junk: nat -> Octet)
    requires Holds(m, parts, size, junk)
    ensures SetPart(m, part, junk).Some? <==> Readable(part)
    ensures Readable(part) ==> Holds(SetPart(m, part, junk).value, parts + [part], size, junk)
  {
    OthersOfPart(m, part, junk);
    hide SetPart, Readable, ValueOf, Values, Words, HasWord, HoldsLists, HoldsTexts, LastSize, SizeOf;
    if Readable(part) {
      ListsNext(m, parts, part, junk);
      TextsNext(m, parts, part, junk);
      SizeNext(parts, part, size);
      var next := SetPart(m, part, junk).value;
      forall word
        ensures word in next.keywords <==> HasWord(parts + [part], word, junk)
      {
        WordsNext(parts, part, word, junk);
      }
    }
  }

  lemma ListsNext(m: Magnet, parts: seq<Text>, part: Text, junk: nat -> Octet)
    requires HoldsLists(m, parts, junk) && Readable(part)
    ensures SetPart(m, part, junk).Some? && HoldsLists(SetPart(m, part, junk).value, parts + [part], junk)
  {
    ListsOfPart(m, part, junk);
    hide SetPart, Readable, ValueOf, Values;
    ValuesNext(parts, part, "xt", junk);
    ValuesNext(parts, part, "tr", junk);
    ValuesNext(parts, part, "ws", junk);
    ValuesNext(parts, part, "as", junk);
    ValuesNext(parts, part, "x.pe", junk);
  }

  lemma TextsNext(m: Magnet, parts: seq<Text>, part: Text, junk: nat -> Octet)
    requires HoldsTexts(m, parts, junk) && Readable(part)
    ensures SetPart(m, part, junk).Some? && HoldsTexts(SetPart(m, part, junk).value, parts + [part], junk)
  {
    TextsOfPart(m, part, junk);
    hide SetPart, Readable, ValueOf, Values, Last;
    ValuesNext(parts, part, "dn", junk);
    ValuesNext(parts, part, "xs", junk);
    ValuesNext(parts, part, "mt", junk);
    LastNext(Values(parts, "dn", junk), ValueOf(part, "dn", junk));
    LastNext(Values(parts, "xs", junk), ValueOf(part, "xs", junk));
    LastNext(Values(parts, "mt", junk), ValueOf(part, "mt", junk));
  }

  lemma SizeNext(parts: seq<Text>, part: Text, size: nat)
    ensures LastSize(parts + [part], size) == SizeOf(part).UnwrapOr(LastSize(parts, size))
  {
    hide SizeOf;
    assert (parts + [part])[..|parts|] == parts;
  }

  lemma WordsNext(parts: seq<Text>, part: Text, word: Text, junk: nat -> Octet)
    ensures HasWord(parts + [part], word, junk) <==> HasWord(parts, word, junk) || word in Words(part, junk)
  {
    hide Words;
    if HasWord(parts, word, junk) {
      var p :| p in parts && word in Words(p, junk);
      assert p in parts + [part];
    }
    assert part in parts + [part];
  }

  lemma {:induction false} PartsExactly(m: Magnet, done: seq<Text>, parts: seq<Text>, size: nat, junk: nat -> Octet)
    requires Holds(m, done, size, junk)
    ensures SetParts(m, parts, junk).Some? <==> forall p :: p in parts ==> Readable(p)
    ensures SetParts(m, parts, junk).Some? ==> Holds(SetParts(m, parts, junk).value, done + parts, size, junk)
    decreases |parts|
  {
    hide Holds, SetPart, Readable;
    if parts == [] {
      assert done + parts == done;
    } else {
      HoldsNext(m, done, parts[0], size, junk);
      assert parts == [parts[0]] + parts[1..];
      if Readable(parts[0]) {
        PartsExactly(SetPart(m, parts[0], junk).value, done + [parts[0]], parts[1..], size, junk);
        assert done + [parts[0]] + parts[1..] == done + parts;
      }
    }
  }

  /**
   * What parsing any text gives: it fails exactly when the introducer is missing, a part is no pair or a size no
   * number, and otherwise every field holds what the parts give it. Other keys change nothing.
   */
  lemma ParseExactly(uri: Text, junk: nat -> Octet, size: nat)
    ensures Parse(uri, junk, size).Some? <==>
            INTRODUCER <= uri && forall p :: p in Split(uri[|INTRODUCER|..], '&') ==> Readable(p)
    ensures Parse(uri, junk, size).Some? ==>
              Holds(Parse(uri, junk, size).value, Split(uri[|INTRODUCER|..], '&'), size, junk)
  {
    if INTRODUCER <= uri {
      var parts := Split(uri[|INTRODUCER|..], '&');
      hide Split, SetParts, Readable;
      NothingHeld(size, junk);
      PartsExactly(Blank(size), [], parts, size, junk);
      assert [] + parts == parts;
    }
  }

  lemma NothingHeld(size: nat, junk: nat -> Octet)
    ensures Holds(Blank(size), [], size, junk)
  {
  }

  // ---- One more field ------------------------------------------------------------------------------------------

  /** A link that goes on: it has a part, and the last one is not empty. */
  ghost predicate GoesOn(uri: Text) {
    INTRODUCER <= uri && |uri| > |INTRODUCER| && uri[|uri| - 1] != '&'
  }

  /** A field at the end of a link is set in what the link without it gives. */
  lemma FieldAtEnd(uri: Text, f: Field, junk: nat -> Octet, size: nat)
    requires GoesOn(uri) && Good(f)
    ensures Parse(uri + "&" + Part(f), junk, size) ==
            match Parse(uri, junk, size)
            case None => None
            case Some(m) => SetField(m, f.key, f.value, junk)
  {
    var query := uri[|INTRODUCER|..];
    assert (uri + "&" + Part(f))[|INTRODUCER|..] == query + "&" + Part(f);
    GoodPart(f);
    assert '&' !in Part(f);
    SplitAtEnd(query, Part(f));
    hide Split, Part, SetField;
    SetLast(Blank(size), Split(query, '&'), Part(f), junk);
  }

  lemma SplitAtEnd(query: Text, part: Text)
    requires query != [] && query[|query| - 1] != '&' && '&' !in part && part != []
    ensures Split(query + "&" + part, '&') == Split(query, '&') + [part]
  {
    LastOfJoined(query, part);
    SplitNoneDropped(query);
    PartsPlain(part);
    PartsJoin(query, part);
    hide Split, Parts;
    SplitNoneDropped(query + "&" + part);
  }

  lemma SplitNoneDropped(s: Text)
    requires s != [] && s[|s| - 1] != '&'
    ensures Split(s, '&') == Parts(s)
  {
    SplitIsParts(s);
  }

  lemma LastOfJoined(a: Text, b: Text)
    requires b != [] && '&' !in b
    ensures var s := a + "&" + b; s != [] && s[|s| - 1] != '&'
  {
    assert b[|b| - 1] in b;
  }

  lemma {:induction false} SetLast(m: Magnet, parts: seq<Text>, part: Text, junk: nat -> Octet)
    ensures SetParts(m, parts + [part], junk) ==
            match SetParts(m, parts, junk)
            case None => None
            case Some(next) => SetPart(next, part, junk)
    decreases |parts|
  {
    hide SetPart;
    if parts == [] {
      assert [part][1..] == [] && parts + [part] == [part];
    } else {
      assert (parts + [part])[1..] == parts[1..] + [part];
      if SetPart(m, parts[0], junk).Some? {
        SetLast(SetPart(m, parts[0], junk).value, parts[1..], part, junk);
      }
    }
  }

  /** A keyword: not empty, of unreserved characters. */
  ghost predicate IsKeyword(word: Text) {
    word != [] && forall c :: c in word ==> IsUnreserved(c)
  }

  /** A list of keywords joined with plus signs comes apart again. */
  lemma {:induction false} KeywordsPlain(words: seq<Text>)
    requires forall w :: w in words ==> IsKeyword(w)
    ensures forall c :: c in Glued(words, '+') ==> IsUnreserved(c) || c == '+'
  {
    hide IsUnreserved;
    if |words| == 1 {
      assert words[0] in words;
    } else if |words| > 1 {
      KeywordsPlain(words[1..]);
      assert words[0] in words;
      assert Glued(words, '+') == words[0] + ['+'] + Glued(words[1..], '+');
    }
  }

  lemma KeywordsSplit(words: seq<Text>, junk: nat -> Octet)
    requires forall w :: w in words ==> IsKeyword(w)
    ensures '&' !in Glued(words, '+')
    ensures Elements(Split(Decode(Glued(words, '+'), junk), '+')) == set w | w in words
  {
    KeywordsPlain(words);
    hide Split, Decode, Glued;
    DecodePlain(Glued(words, '+'), junk);
    forall w | w in words ensures '+' !in w && w != [] {
    }
    assert words != [] ==> words[|words| - 1] in words;
    SplitOfGlued(words, '+');
  }

  lemma KeywordField(m: Magnet, words: seq<Text>, junk: nat -> Octet)
    requires forall w :: w in words ==> IsKeyword(w)
    ensures Good(Field("kt", Glued(words, '+')))
    ensures SetField(m, "kt", Glued(words, '+'), junk) == Some(m.(keywords := m.keywords + set w | w in words))
  {
    KeywordsSplit(words, junk);
    hide Split, Decode, Glued, Elements;
  }

  /**
   * Keywords joined with plus signs in a field at the end of a link are added to those of the fields before it, and no
   * other field changes.
   */
  lemma KeywordsAdded(uri: Text, words: seq<Text>, junk: nat -> Octet, size: nat)
    requires GoesOn(uri) && Parse(uri, junk, size).Some? && forall w :: w in words ==> IsKeyword(w)
    ensures var m := Parse(uri, junk, size).value;
            Parse(uri + "&kt=" + Glued(words, '+'), junk, size) ==
            Some(m.(keywords := m.keywords + set w | w in words))
  {
    var f := Field("kt", Glued(words, '+'));
    KeywordField(Parse(uri, junk, size).value, words, junk);
    assert uri + "&kt=" + Glued(words, '+') == uri + "&" + Part(f);
    hide Split, Decode, Glued, Parse, GoesOn, Part, SetField;
    FieldAtEnd(uri, f, junk, size);
  }

  /** A link of one field. */
  lemma OneField(f: Field, junk: nat -> Octet, size: nat)
    requires Good(f)
    ensures Parse(INTRODUCER + Part(f), junk, size) == SetField(Blank(size), f.key, f.value, junk)
  {
    GoodPart(f);
    assert '&' !in Part(f);
    WholeSplit(Part(f));
    TailAfter(INTRODUCER, Part(f));
    hide Split, Part, SplitKeyValue, SetField;
    SetLast(Blank(size), [], Part(f), junk);
    assert [] + [Part(f)] == [Part(f)];
  }

  /** A link of nothing but keywords. */
  lemma OnlyKeywords(words: seq<Text>, junk: nat -> Octet, size: nat)
    requires forall w :: w in words ==> IsKeyword(w)
    ensures Parse(INTRODUCER + "kt=" + Glued(words, '+'), junk, size) ==
            Some(Blank(size).(keywords := set w | w in words))
  {
    var f := Field("kt", Glued(words, '+'));
    KeywordField(Blank(size), words, junk);
    assert INTRODUCER + "kt=" + Glued(words, '+') == INTRODUCER + Part(f);
    assert {} + (set w | w in words) == set w | w in words;
    hide Glued, Parse, Part, SetField;
    OneField(f, junk, size);
  }

  lemma WholeSplit(part: Text)
    requires '&' !in part && part != []
    ensures Split(part, '&') == [part]
  {
    NoIndex(part, '&');
  }

  predicate KnownKey(key: Text) {
    key in {"dn", "xl", "xt", "tr", "ws", "as", "xs", "kt", "mt", "x.pe"}
  }

  /** A field under any other key changes nothing. */
  lemma UnknownKey(uri: Text, f: Field, junk: nat -> Octet, size: nat)
    requires GoesOn(uri) && Good(f) && !KnownKey(f.key)
    ensures Parse(uri + "&" + Part(f), junk, size) == Parse(uri, junk, size)
  {
    hide Parse, GoesOn, Part;
    FieldAtEnd(uri, f, junk, size);
  }
}
