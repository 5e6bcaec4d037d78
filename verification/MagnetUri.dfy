/** Magnet links: the writer of include/dottorrent/magnet_uri.hpp and the parser of src/magnet_uri.cpp. */
module MagnetUri {
  import opened Options
  import opened Hex
  import opened PercentEncoding

  /** `keywords` is filled by the parser only: magnets with keywords are not written. */
  datatype Magnet = Magnet(
    displayName: Text,
    size: nat,
    topics: seq<Text>,
    trackers: seq<Text>,
    webSeeds: seq<Text>,
    acceptableSources: seq<Text>,
    exactSource: Text,
    manifest: Text,
    peers: seq<Text>,
    keywords: set<Text>
  )

  const TWO_TO_THE_64: nat := 0x1_0000_0000_0000_0000

  /** A new magnet; its size field has no initial value. */
  function Blank(size: nat): Magnet {
    Magnet([], size, [], [], [], [], [], [], [], {})
  }

  // ---- Decimal numbers -----------------------------------------------------------------------------------------

  function Decimal(n: nat): Text {
    if n < 10 then [LowerDigit(n)] else Decimal(n / 10) + [LowerDigit(n % 10)]
  }

  function DecimalValue(s: Text): nat {
    if s == [] then 0
    else 10 * DecimalValue(s[..|s| - 1]) + if IsNumeric(s[|s| - 1]) then s[|s| - 1] as int - '0' as int else 0
  }

  predicate AllNumeric(s: Text) {
    forall k :: 0 <= k < |s| ==> IsNumeric(s[k])
  }

  /** std::from_chars over the whole text: digits only, at least one, and in range. */
  function FromChars(s: Text): Option<nat> {
    if s == [] || !AllNumeric(s) || DecimalValue(s) >= TWO_TO_THE_64 then None else Some(DecimalValue(s))
  }

  lemma {:induction false} DecimalRoundTrip(n: nat)
    ensures Decimal(n) != [] && AllNumeric(Decimal(n)) && DecimalValue(Decimal(n)) == n
  {
    if n < 10 {
      assert DecimalValue([]) == 0;
      assert Decimal(n)[..0] == [];
    } else {
      DecimalRoundTrip(n / 10);
      var s := Decimal(n);
      assert s[..|s| - 1] == Decimal(n / 10);
    }
  }

  // ---- Splitting -----------------------------------------------------------------------------------------------

  function IndexOf(s: Text, c: Octet): (k: nat)
    ensures k <= |s| && (k < |s| ==> s[k] == c)
    ensures forall i :: 0 <= i < k ==> s[i] != c
  {
    if s == [] || s[0] == c then 0 else 1 + IndexOf(s[1..], c)
  }

  /** The pieces between separators; nothing comes after a separator at the very end. */
  function Split(s: Text, separator: Octet): seq<Text>
    decreases |s|
  {
    var k := IndexOf(s, separator);
    if s == [] then []
    else if k < |s| then [s[..k]] + Split(s[k + 1..], separator)
    else [s]
  }

  /** `split_query_string`, and with '+' `split_keywords_string` */
  method SplitString(s: Text, separator: Octet) returns (parts: seq<Text>)
    ensures parts == Split(s, separator)
  {
    hide Split;
    parts := [];
    var it := 0;
    assert s[0..] == s;
    while it < |s|
      invariant it <= |s|
      invariant Split(s, separator) == parts + Split(s[it..], separator)
      decreases |s| - it
    {
      var k := IndexOf(s[it..], separator);
      SplitStep(s, separator, it, k);
      if it + k < |s| {
        AppendOne(parts, s[it..it + k], Split(s[it + k + 1..], separator));
        parts := parts + [s[it..it + k]];
        it := it + k + 1;
      } else {
        parts := parts + [s[it..]];
        return;
      }
    }
    SplitNothing(separator, s[it..]);
  }

  lemma SplitNothing(separator: Octet, s: Text)
    requires s == []
    ensures Split(s, separator) == []
  {
  }

  lemma SplitStep(s: Text, separator: Octet, it: nat, k: nat)
    requires it < |s| && k == IndexOf(s[it..], separator)
    ensures Split(s[it..], separator) ==
            if it + k < |s| then [s[it..it + k]] + Split(s[it + k + 1..], separator) else [s[it..]]
  {
    if it + k < |s| {
      SliceOfTail(s, it, k);
    }
  }

  lemma SliceOfTail<T>(s: seq<T>, it: nat, k: nat)
    requires it + k < |s|
    ensures s[it..][..k] == s[it..it + k] && s[it..][k + 1..] == s[it + k + 1..]
  {
  }

  function SplitKeyValue(part: Text): Option<(Text, Text)> {
    var k := IndexOf(part, '=');
    if k == |part| then None else Some((part[..k], part[k + 1..]))
  }

  // ---- Parsing -------------------------------------------------------------------------------------------------

  function Elements(parts: seq<Text>): set<Text> {
    set p | p in parts
  }

  /** One key-value pair; None where the parser throws. Unknown keys are skipped. */
  function SetField(m: Magnet, key: Text, value: Text, junk: nat -> Octet): Option<Magnet> {
    if key == "dn" then Some(m.(displayName := Decode(value, junk)))
    else if key == "xl" then
      (match FromChars(value)
       case None => None
       case Some(size) => Some(m.(size := size)))
    else if key == "xt" then Some(m.(topics := m.topics + [Decode(value, junk)]))
    else if key == "tr" then Some(m.(trackers := m.trackers + [Decode(value, junk)]))
    else if key == "ws" then Some(m.(webSeeds := m.webSeeds + [Decode(value, junk)]))
    else if key == "as" then Some(m.(acceptableSources := m.acceptableSources + [Decode(value, junk)]))
    else if key == "xs" then Some(m.(exactSource := Decode(value, junk)))
    else if key == "kt" then Some(m.(keywords := m.keywords + Elements(Split(Decode(value, junk), '+'))))
    else if key == "mt" then Some(m.(manifest := Decode(value, junk)))
    else if key == "x.pe" then Some(m.(peers := m.peers + [Decode(value, junk)]))
    else Some(m)
  }

  function SetPart(m: Magnet, part: Text, junk: nat -> Octet): Option<Magnet> {
    match SplitKeyValue(part)
    case None => None
    case Some(pair) => SetField(m, pair.0, pair.1, junk)
  }

  function SetParts(m: Magnet, parts: seq<Text>, junk: nat -> Octet): Option<Magnet>
    decreases |parts|
  {
    if parts == [] then Some(m)
    else match SetPart(m, parts[0], junk)
         case None => None
         case Some(next) => SetParts(next, parts[1..], junk)
  }

  const INTRODUCER: Text := "magnet:?"

  /** `size` is what the uninitialised size field holds when there is no `xl` key. */
  function Parse(uri: Text, junk: nat -> Octet, size: nat): Option<Magnet> {
    if !(INTRODUCER <= uri) then None
    else SetParts(Blank(size), Split(uri[|INTRODUCER|..], '&'), junk)
  }

  method MakeMagnetUri(uri: Text, junk: nat -> Octet, size: nat) returns (result: Option<Magnet>)
    ensures result == Parse(uri, junk, size)
  {
    if !(INTRODUCER <= uri) {
      return None;
    }
    var parts := SplitString(uri[|INTRODUCER|..], '&');
    var m := Blank(size);
    var i := 0;
    assert parts[0..] == parts;
    while i < |parts|
      invariant i <= |parts|
      invariant Parse(uri, junk, size) == SetParts(m, parts[i..], junk)
    {
      hide SetField, Split, Parse;
      assert parts[i..][0] == parts[i] && parts[i..][1..] == parts[i + 1..];
      var pair := SplitKeyValue(parts[i]);
      if pair.None? {
        return None;
      }
      var next := SetField(m, pair.value.0, pair.value.1, junk);
      if next.None? {
        return None;
      }
      m := next.value;
      i := i + 1;
    }
    return Some(m);
  }

  // ---- Writing -------------------------------------------------------------------------------------------------

  /** A key and its value as it stands in the link. */
  datatype Field = Field(key: Text, value: Text)

  function Part(f: Field): Text {
    f.key + "=" + f.value
  }

  function Written(fields: seq<Field>): Text {
    if fields == [] then [] else Written(fields[..|fields| - 1]) + "&" + Part(fields[|fields| - 1])
  }

  function TopicFields(topics: seq<Text>): seq<Field> {
    seq(|topics|, i requires 0 <= i < |topics| => Field("xt", topics[i]))
  }

  function ListFields(key: Text, values: seq<Text>): seq<Field> {
    seq(|values|, i requires 0 <= i < |values| => Field(key, Encode(values[i])))
  }

  function OptionalField(key: Text, value: Text): seq<Field> {
    if value == [] then [] else [Field(key, Encode(value))]
  }

  function SizeField(size: nat): seq<Field> {
    if size == 0 then [] else [Field("xl", Encode(Decimal(size)))]
  }

  /** Everything after the topics. */
  function OtherFields(m: Magnet): seq<Field> {
    OptionalField("dn", m.displayName) + SizeField(m.size)
    + ListFields("tr", m.trackers) + ListFields("ws", m.webSeeds) + ListFields("as", m.acceptableSources)
    + OptionalField("xs", m.exactSource) + OptionalField("mt", m.manifest) + ListFields("x.pe", m.peers)
  }

  /** Only the first topic has no ampersand in front. */
  function TopicText(topics: seq<Text>): Text {
    if topics == [] then [] else Written(TopicFields(topics))[1..]
  }

  function Uri(m: Magnet): Text {
    INTRODUCER + TopicText(m.topics) + Written(OtherFields(m))
  }

  lemma WrittenNext(fields: seq<Field>, f: Field)
    ensures Written(fields + [f]) == Written(fields) + "&" + Part(f)
  {
    assert (fields + [f])[..|fields|] == fields;
  }

  lemma {:induction false} WrittenAppend(a: seq<Field>, b: seq<Field>)
    ensures Written(a + b) == Written(a) + Written(b)
  {
    hide Part;
    if b == [] {
      assert a + b == a;
    } else {
      var n := |b| - 1;
      WrittenAppend(a, b[..n]);
      assert (a + b)[..|a + b| - 1] == a + b[..n];
      assert (Written(a) + Written(b[..n])) + "&" + Part(b[n]) == Written(a) + (Written(b[..n]) + "&" + Part(b[n]));
    }
  }

  method WriteTopics(topics: seq<Text>) returns (out: Text)
    ensures out == TopicText(topics)
  {
    out := [];
    var first := true;
    for i := 0 to |topics|
      invariant out == TopicText(topics[..i])
      invariant first <==> i == 0
    {
      hide TopicText;
      TopicNext(topics[..i], topics[i]);
      assert topics[..i + 1] == topics[..i] + [topics[i]];
      if first {
        out := out + "xt=";
        first := false;
      } else {
        out := out + "&xt=";
      }
      out := out + topics[i];
    }
    assert topics[..|topics|] == topics;
  }

  lemma TopicNext(topics: seq<Text>, topic: Text)
    ensures TopicText(topics + [topic]) ==
            if topics == [] then "xt=" + topic else TopicText(topics) + "&xt=" + topic
  {
    var fields := TopicFields(topics);
    assert TopicFields(topics + [topic]) == fields + [Field("xt", topic)];
    WrittenNext(fields, Field("xt", topic));
    hide TopicFields;
    assert "&" + Part(Field("xt", topic)) == "&xt=" + topic;
    if topics != [] {
      FirstIsAmpersand(fields);
    }
  }

  lemma FirstIsAmpersand(fields: seq<Field>)
    requires fields != []
    ensures Written(fields) != []
  {
    hide Part;
  }

  /** A loop over one of the lists. */
  method WriteList(key: Text, values: seq<Text>) returns (out: Text)
    ensures out == Written(ListFields(key, values))
  {
    out := [];
    for i := 0 to |values|
      invariant out == Written(ListFields(key, values[..i]))
    {
      var value := PercentEncode(values[i]);
      hide Part;
      assert ListFields(key, values[..i + 1]) == ListFields(key, values[..i]) + [Field(key, value)];
      WrittenNext(ListFields(key, values[..i]), Field(key, value));
      PartText(key, value);
      out := out + ("&" + key + "=") + value;
    }
    assert values[..|values|] == values;
  }

  lemma PartText(key: Text, value: Text)
    ensures forall out: Text :: out + ("&" + key + "=") + value == out + "&" + Part(Field(key, value))
  {
    forall out: Text ensures out + ("&" + key + "=") + value == out + "&" + Part(Field(key, value)) {
    }
  }

  lemma WrittenOne(f: Field)
    ensures Written([f]) == [] + "&" + Part(f)
  {
    hide Part;
    assert [f][..0] == [];
  }

  method WriteOptional(key: Text, value: Text) returns (out: Text)
    ensures out == Written(OptionalField(key, value))
  {
    out := [];
    if value != [] {
      var encoded := PercentEncode(value);
      hide Part;
      PartText(key, encoded);
      out := out + ("&" + key + "=") + encoded;
      WrittenOne(Field(key, encoded));
    }
  }

  method WriteSize(size: nat) returns (out: Text)
    ensures out == Written(SizeField(size))
  {
    out := [];
    if size != 0 {
      var encoded := PercentEncode(Decimal(size));
      hide Part, Written;
      PartText("xl", encoded);
      out := out + ("&" + "xl" + "=") + encoded;
      WrittenOne(Field("xl", encoded));
    }
  }

  /** `encode_magnet_uri` for a magnet without keywords. */
  method EncodeMagnetUri(m: Magnet) returns (uri: Text)
    requires m.keywords == {}
    ensures uri == Uri(m)
  {
    var dn, xl := OptionalField("dn", m.displayName), SizeField(m.size);
    var tr, ws, as_ := ListFields("tr", m.trackers), ListFields("ws", m.webSeeds),
      ListFields("as", m.acceptableSources);
    var xs, mt, pe := OptionalField("xs", m.exactSource), OptionalField("mt", m.manifest), ListFields("x.pe", m.peers);
    hide OptionalField, SizeField, ListFields, TopicText, Written;
    var t := WriteTopics(m.topics);
    uri := INTRODUCER + t;
    ghost var head := uri;
    var part := WriteOptional("dn", m.displayName);
    uri := uri + part;
    part := WriteSize(m.size);
    uri := uri + part;
    Wrote(head, dn, xl);
    part := WriteList("tr", m.trackers);
    uri := uri + part;
    Wrote(head, dn + xl, tr);
    part := WriteList("ws", m.webSeeds);
    uri := uri + part;
    Wrote(head, dn + xl + tr, ws);
    part := WriteList("as", m.acceptableSources);
    uri := uri + part;
    Wrote(head, dn + xl + tr + ws, as_);
    part := WriteOptional("xs", m.exactSource);
    uri := uri + part;
    Wrote(head, dn + xl + tr + ws + as_, xs);
    part := WriteOptional("mt", m.manifest);
    uri := uri + part;
    Wrote(head, dn + xl + tr + ws + as_ + xs, mt);
    part := WriteList("x.pe", m.peers);
    uri := uri + part;
    Wrote(head, dn + xl + tr + ws + as_ + xs + mt, pe);
  }

  lemma Wrote(head: Text, a: seq<Field>, b: seq<Field>)
    ensures head + Written(a) + Written(b) == head + Written(a + b)
  {
    WrittenAppend(a, b);
    hide Written;
    assert head + (Written(a) + Written(b)) == head + Written(a) + Written(b);
  }
}
