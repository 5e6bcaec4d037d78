/** When a written magnet link reads back as the magnet it was made of. */
module MagnetRoundTrip {
  import opened Options
  import opened Hex
  import opened PercentEncoding
  import opened MagnetUri

  // ---- The text of a link, split at its ampersands -------------------------------------------------------------

  /** The pieces between ampersands, with an empty one after a trailing ampersand. */
  function Parts(s: Text): seq<Text>
    decreases |s|
  {
    var k := IndexOf(s, '&');
    if k < |s| then [s[..k]] + Parts(s[k + 1..]) else [s]
  }

  lemma {:induction false} IndexOfAppend(a: Text, b: Text, c: Octet)
    ensures IndexOf(a + b, c) == if IndexOf(a, c) < |a| then IndexOf(a, c) else |a| + IndexOf(b, c)
  {
    var k := IndexOf(a + b, c);
    forall i | 0 <= i < |a| ensures (a + b)[i] == a[i] {
    }
    forall i | 0 <= i < |b| ensures (a + b)[|a| + i] == b[i] {
    }
  }

  /** A joining ampersand separates the parts of both sides. */
  lemma {:induction false} PartsJoin(a: Text, b: Text)
    ensures Parts(a + "&" + b) == Parts(a) + Parts(b)
    decreases |a|
  {
    hide Parts;
    var k := IndexOf(a, '&');
    if k < |a| {
      PartsJoin(a[k + 1..], b);
      PartsJoinStep(a, b, k);
    } else {
      PartsJoinBase(a, b);
    }
  }

  lemma PartsJoinStep(a: Text, b: Text, k: nat)
    requires k == IndexOf(a, '&') < |a|
    requires Parts(a[k + 1..] + "&" + b) == Parts(a[k + 1..]) + Parts(b)
    ensures Parts(a + "&" + b) == Parts(a) + Parts(b)
  {
    SplitLeft(a, b, k);
    PartsFirst(a, k);
    FirstInLeft(a, b);
    PartsFirst(a + "&" + b, k);
    hide Parts;
    AppendThree([a[..k]], Parts(a[k + 1..]), Parts(b));
  }

  lemma FirstInLeft(a: Text, b: Text)
    ensures IndexOf(a + "&" + b, '&') == IndexOf(a, '&')
    ensures IndexOf(a, '&') < |a + "&" + b|
  {
    AppendThree(a, "&", b);
    IndexOfAppend(a, "&" + b, '&');
  }

  lemma PartsJoinBase(a: Text, b: Text)
    requires IndexOf(a, '&') == |a|
    ensures Parts(a + "&" + b) == Parts(a) + Parts(b)
  {
    var s := a + "&" + b;
    FirstInLeft(a, b);
    assert s[..|a|] == a && s[|a| + 1..] == b;
    PartsFirst(s, |a|);
  }

  lemma SplitLeft(a: Text, b: Text, k: nat)
    requires k < |a|
    ensures (a + "&" + b)[..k] == a[..k]
    ensures (a + "&" + b)[k + 1..] == a[k + 1..] + "&" + b
  {
  }

  lemma PartsFirst(s: Text, k: nat)
    requires k == IndexOf(s, '&') < |s|
    ensures Parts(s) == [s[..k]] + Parts(s[k + 1..])
  {
  }

  lemma PartsPlain(s: Text)
    requires '&' !in s
    ensures Parts(s) == [s]
  {
  }

  /** The parser's split only drops an empty part after a trailing ampersand. */
  lemma {:induction false} SplitIsParts(s: Text)
    ensures Split(s, '&') == Parts(s) || Split(s, '&') + [[]] == Parts(s)
    ensures s != [] && s[|s| - 1] != '&' ==> Split(s, '&') == Parts(s)
    decreases |s|
  {
    var k := IndexOf(s, '&');
    if s == [] {
      assert Split(s, '&') + [[]] == [[]];
    } else if k < |s| {
      SplitIsParts(s[k + 1..]);
      var head, tail := [s[..k]], s[k + 1..];
      assert Split(s, '&') == head + Split(tail, '&') && Parts(s) == head + Parts(tail);
      if Split(tail, '&') + [[]] == Parts(tail) {
        assert (head + Split(tail, '&')) + [[]] == head + Parts(tail);
      }
    }
  }

  /** The parts of a list of fields, each split on its own. */
  function AllParts(fields: seq<Field>): seq<Text> {
    if fields == [] then [] else AllParts(fields[..|fields| - 1]) + Parts(Part(fields[|fields| - 1]))
  }

  lemma {:induction false} WrittenParts(text: Text, fields: seq<Field>)
    ensures Parts(text + Written(fields)) == Parts(text) + AllParts(fields)
  {
    hide Parts, Part;
    if fields == [] {
      assert text + Written(fields) == text;
      assert Parts(text) + [] == Parts(text);
    } else {
      var init, last := fields[..|fields| - 1], fields[|fields| - 1];
      WrittenParts(text, init);
      PartsJoin(text + Written(init), Part(last));
      WrittenLast(text, fields);
      AppendThree(Parts(text), AllParts(init), Parts(Part(last)));
    }
  }

  lemma WrittenLast(text: Text, fields: seq<Field>)
    requires fields != []
    ensures text + Written(fields) == text + Written(fields[..|fields| - 1]) + "&" + Part(fields[|fields| - 1])
  {
    hide Part;
    AppendThree(text, Written(fields[..|fields| - 1]), "&" + Part(fields[|fields| - 1]));
    AppendThree(Written(fields[..|fields| - 1]), "&", Part(fields[|fields| - 1]));
    AppendThree(text + Written(fields[..|fields| - 1]), "&", Part(fields[|fields| - 1]));
  }

  lemma AppendThree<T>(a: seq<T>, b: seq<T>, c: seq<T>)
    ensures (a + b) + c == a + (b + c)
  {
  }

  lemma {:induction false} TopicParts(topics: seq<Text>)
    requires topics != []
    ensures Parts(TopicText(topics)) == AllParts(TopicFields(topics))
  {
    var n := |topics| - 1;
    var fields := TopicFields(topics);
    assert fields[..n] == TopicFields(topics[..n]);
    hide Parts, Part;
    if n == 0 {
      assert Written(fields[..0]) == [];
      assert TopicText(topics) == Part(fields[0]);
      assert AllParts(fields[..0]) == [];
      assert [] + Parts(Part(fields[0])) == Parts(Part(fields[0]));
    } else {
      TopicParts(topics[..n]);
      NextTopic(topics);
      PartsJoin(TopicText(topics[..n]), Part(fields[n]));
    }
  }

  lemma NextTopic(topics: seq<Text>)
    requires |topics| > 1
    ensures TopicText(topics) == TopicText(topics[..|topics| - 1]) + "&" + Part(Field("xt", topics[|topics| - 1]))
  {
    var n := |topics| - 1;
    var fields := TopicFields(topics);
    assert fields[..n] == TopicFields(topics[..n]);
    WrittenNonEmpty(fields[..n]);
    hide Part;
    assert Written(fields) == Written(fields[..n]) + "&" + Part(fields[n]);
  }

  lemma WrittenNonEmpty(fields: seq<Field>)
    ensures Written(fields) != [] <==> fields != []
    ensures fields != [] ==> Written(fields)[0] == '&'
  {
    if |fields| > 1 {
      WrittenNonEmpty(fields[..|fields| - 1]);
    }
  }

  function Query(m: Magnet): Text {
    TopicText(m.topics) + Written(OtherFields(m))
  }

  lemma QueryParts(m: Magnet)
    requires m.topics != []
    ensures Parts(Query(m)) == AllParts(TopicFields(m.topics)) + AllParts(OtherFields(m))
  {
    hide Parts, AllParts, Written, TopicText, OtherFields;
    TopicParts(m.topics);
    WrittenParts(TopicText(m.topics), OtherFields(m));
  }

  lemma SplitOfField(key: Text, value: Text)
    requires '=' !in key
    ensures SplitKeyValue(Part(Field(key, value))) == Some((key, value))
  {
    var part := Part(Field(key, value));
    AppendThree(key, "=", value);
    IndexOfAppend(key, "=" + value, '=');
    assert part[..|key|] == key && part[|key| + 1..] == value;
  }

  // ---- How many topic characters can come back -----------------------------------------------------------------

  ghost function Total(topics: seq<Text>): nat {
    if topics == [] then 0 else Total(topics[..|topics| - 1]) + |topics[|topics| - 1]|
  }

  /** The topic characters one part gives. */
  ghost function TopicLength(part: Text, junk: nat -> Octet): nat {
    match SplitKeyValue(part)
    case Some((key, value)) => if key == "xt" then |Decode(value, junk)| else 0
    case None => 0
  }

  ghost function TopicLengths(parts: seq<Text>, junk: nat -> Octet): nat {
    if parts == [] then 0 else TopicLength(parts[0], junk) + TopicLengths(parts[1..], junk)
  }

  lemma {:induction false} LengthsAppend(a: seq<Text>, b: seq<Text>, junk: nat -> Octet)
    ensures TopicLengths(a + b, junk) == TopicLengths(a, junk) + TopicLengths(b, junk)
  {
    hide TopicLength;
    if a == [] {
      assert a + b == b;
    } else {
      LengthsAppend(a[1..], b, junk);
      assert (a + b)[1..] == a[1..] + b;
    }
  }

  lemma LengthsOne(part: Text, junk: nat -> Octet)
    ensures TopicLengths([part], junk) == TopicLength(part, junk)
    ensures TopicLengths([[]], junk) == 0
  {
    var none: Text := [];
    assert [part][1..] == [] && [none][1..] == [];
    assert SplitKeyValue(none) == None;
  }

  lemma SetPartTopics(m: Magnet, part: Text, junk: nat -> Octet)
    requires SetPart(m, part, junk).Some?
    ensures Total(SetPart(m, part, junk).value.topics) == Total(m.topics) + TopicLength(part, junk)
  {
    hide Decode, FromChars, Elements;
    var pair := SplitKeyValue(part).value;
    if pair.0 == "xt" {
      var topics := m.topics + [Decode(pair.1, junk)];
      assert topics[..|m.topics|] == m.topics;
    }
  }

  /** What the parser makes of the topics is accounted for by the parts. */
  lemma {:induction false} SetPartsTopics(m: Magnet, parts: seq<Text>, junk: nat -> Octet)
    requires SetParts(m, parts, junk).Some?
    ensures Total(SetParts(m, parts, junk).value.topics) == Total(m.topics) + TopicLengths(parts, junk)
    decreases |parts|
  {
    hide SetPart, TopicLength, Total;
    if parts != [] {
      SetPartTopics(m, parts[0], junk);
      SetPartsTopics(SetPart(m, parts[0], junk).value, parts[1..], junk);
    }
  }

  lemma DecodeLength(s: Text, junk: nat -> Octet)
    ensures |Decode(s, junk)| <= |s|
    ensures '%' in s ==> |Decode(s, junk)| < |s|
  {
    DecodeShortens(Start, s, junk);
  }

  lemma PartLength(part: Text, junk: nat -> Octet)
    ensures TopicLength(part, junk) <= |part|
  {
    hide Decode;
    if SplitKeyValue(part).Some? {
      DecodeLength(SplitKeyValue(part).value.1, junk);
    }
  }

  lemma {:induction false} PartsLength(s: Text, junk: nat -> Octet)
    ensures TopicLengths(Parts(s), junk) <= |s|
    decreases |s|
  {
    hide TopicLength;
    var k := IndexOf(s, '&');
    if k < |s| {
      PartsLength(s[k + 1..], junk);
      LengthsAppend([s[..k]], Parts(s[k + 1..]), junk);
      LengthsOne(s[..k], junk);
      PartLength(s[..k], junk);
    } else {
      LengthsOne(s, junk);
      PartLength(s, junk);
    }
  }

  ghost predicate Clean(topic: Text) {
    '&' !in topic && '%' !in topic
  }

  /** A topic comes back no longer than it was, and shorter when it has an ampersand or a percent sign. */
  lemma TopicLoss(topic: Text, junk: nat -> Octet)
    ensures TopicLengths(Parts(Part(Field("xt", topic))), junk) <= |topic|
    ensures !Clean(topic) ==> TopicLengths(Parts(Part(Field("xt", topic))), junk) < |topic|
  {
    TopicPart(topic);
    hide TopicLengths, TopicLength, Parts, Part;
    var k := IndexOf(topic, '&');
    if k < |topic| {
      CutTopic(topic, k, junk);
    } else {
      WholeTopic(topic, junk);
    }
  }

  lemma TopicPart(topic: Text)
    ensures var k := IndexOf(topic, '&');
            Parts(Part(Field("xt", topic))) ==
            if k < |topic| then [Part(Field("xt", topic[..k]))] + Parts(topic[k + 1..]) else [Part(Field("xt", topic))]
  {
    hide Parts, IndexOf;
    HeadedParts("xt" + "=", topic);
  }

  lemma HeadedParts(head: Text, text: Text)
    requires '&' !in head
    ensures var k := IndexOf(text, '&');
            Parts(head + text) == if k < |text| then [head + text[..k]] + Parts(text[k + 1..]) else [head + text]
  {
    HeadedIndex(head, text);
    hide Parts, IndexOf;
    var k := IndexOf(text, '&');
    if k < |text| {
      HeadedCut(head, text, k);
    } else {
      Uncut(head + text);
    }
  }

  lemma Uncut(s: Text)
    requires IndexOf(s, '&') >= |s|
    ensures Parts(s) == [s]
  {
  }

  lemma HeadedIndex(head: Text, text: Text)
    requires '&' !in head
    ensures IndexOf(head + text, '&') == |head| + IndexOf(text, '&')
  {
    IndexOfAppend(head, text, '&');
  }

  lemma HeadedCut(head: Text, text: Text, k: nat)
    requires k < |text| && IndexOf(head + text, '&') == |head| + k
    ensures Parts(head + text) == [head + text[..k]] + Parts(text[k + 1..])
  {
    hide IndexOf, Parts;
    PartsFirst(head + text, |head| + k);
    CutAfter(head, text, k);
  }

  lemma CutAfter<T>(head: seq<T>, tail: seq<T>, k: nat)
    requires k < |tail|
    ensures (head + tail)[..|head| + k] == head + tail[..k]
    ensures (head + tail)[|head| + k + 1..] == tail[k + 1..]
  {
  }

  lemma CutTopic(topic: Text, k: nat, junk: nat -> Octet)
    requires k < |topic|
    ensures TopicLengths([Part(Field("xt", topic[..k]))] + Parts(topic[k + 1..]), junk) < |topic|
  {
    hide TopicLengths, TopicLength, Parts, Part;
    LengthsAppend([Part(Field("xt", topic[..k]))], Parts(topic[k + 1..]), junk);
    PartsLength(topic[k + 1..], junk);
    WholeTopic(topic[..k], junk);
  }

  lemma WholeTopic(topic: Text, junk: nat -> Octet)
    ensures TopicLengths([Part(Field("xt", topic))], junk) == |Decode(topic, junk)| <= |topic|
    ensures '%' in topic ==> |Decode(topic, junk)| < |topic|
  {
    hide Decode;
    LengthsOne(Part(Field("xt", topic)), junk);
    SplitOfField("xt", topic);
    DecodeLength(topic, junk);
  }

  lemma {:induction false} TopicsLoss(topics: seq<Text>, junk: nat -> Octet)
    ensures TopicLengths(AllParts(TopicFields(topics)), junk) <= Total(topics)
    ensures (exists k :: 0 <= k < |topics| && !Clean(topics[k]))
              ==> TopicLengths(AllParts(TopicFields(topics)), junk) < Total(topics)
  {
    hide Parts, Part, TopicLength;
    if topics != [] {
      var n := |topics| - 1;
      assert TopicFields(topics)[..n] == TopicFields(topics[..n]);
      TopicsLoss(topics[..n], junk);
      TopicLoss(topics[n], junk);
      LengthsAppend(AllParts(TopicFields(topics[..n])), Parts(Part(Field("xt", topics[n]))), junk);
      hide TopicLengths, Clean;
      if k :| 0 <= k < |topics| && !Clean(topics[k]) {
        assert k < n ==> topics[..n][k] == topics[k];
      }
    }
  }

  // ---- Fields that survive the split ---------------------------------------------------------------------------

  ghost predicate Good(f: Field) {
    '&' !in f.key && '=' !in f.key && '&' !in f.value
  }

  ghost predicate AllGood(fields: seq<Field>) {
    forall k :: 0 <= k < |fields| ==> Good(fields[k])
  }

  ghost predicate NoTopics(fields: seq<Field>) {
    forall k :: 0 <= k < |fields| ==> fields[k].key != "xt"
  }

  function Texts(fields: seq<Field>): seq<Text> {
    seq(|fields|, i requires 0 <= i < |fields| => Part(fields[i]))
  }

  lemma {:induction false} AllPartsGood(fields: seq<Field>)
    requires AllGood(fields)
    ensures AllParts(fields) == Texts(fields)
  {
    hide Part, Parts;
    if fields != [] {
      var n := |fields| - 1;
      AllPartsGood(fields[..n]);
      GoodPart(fields[n]);
      assert Texts(fields) == Texts(fields[..n]) + [Part(fields[n])];
    }
  }

  lemma GoodPart(f: Field)
    requires Good(f)
    ensures Parts(Part(f)) == [Part(f)]
    ensures SplitKeyValue(Part(f)) == Some((f.key, f.value))
  {
    assert '&' !in Part(f);
    PartsPlain(Part(f));
    SplitOfField(f.key, f.value);
  }

  lemma {:induction false} NoTopicLengths(fields: seq<Field>, junk: nat -> Octet)
    requires AllGood(fields) && NoTopics(fields)
    ensures TopicLengths(Texts(fields), junk) == 0
  {
    hide Part, Decode;
    if fields != [] {
      NoTopicLengths(fields[1..], junk);
      assert Texts(fields)[1..] == Texts(fields[1..]);
      GoodPart(fields[0]);
    }
  }

  lemma EncodedGood(key: Text, value: Text)
    requires '&' !in key && '=' !in key
    ensures Good(Field(key, Encode(value)))
  {
    EncodedCharacters(value);
  }

  ghost predicate PlainKey(key: Text) {
    '&' !in key && '=' !in key && key != "xt"
  }

  lemma ListGood(key: Text, values: seq<Text>)
    requires PlainKey(key)
    ensures AllGood(ListFields(key, values)) && NoTopics(ListFields(key, values))
  {
    forall k | 0 <= k < |values| ensures Good(ListFields(key, values)[k]) {
      EncodedGood(key, values[k]);
    }
  }

  lemma OptionalGood(key: Text, value: Text)
    requires PlainKey(key)
    ensures AllGood(OptionalField(key, value)) && NoTopics(OptionalField(key, value))
  {
    EncodedGood(key, value);
  }

  lemma GoodAppend(a: seq<Field>, b: seq<Field>)
    requires AllGood(a) && NoTopics(a) && AllGood(b) && NoTopics(b)
    ensures AllGood(a + b) && NoTopics(a + b)
  {
  }

  lemma OthersGood(m: Magnet)
    ensures AllGood(OtherFields(m)) && NoTopics(OtherFields(m))
  {
    var dn, xl := OptionalField("dn", m.displayName), SizeField(m.size);
    var tr, ws, as_ := ListFields("tr", m.trackers), ListFields("ws", m.webSeeds),
      ListFields("as", m.acceptableSources);
    var xs, mt, pe := OptionalField("xs", m.exactSource), OptionalField("mt", m.manifest), ListFields("x.pe", m.peers);
    OptionalGood("dn", m.displayName);
    EncodedGood("xl", Decimal(m.size));
    ListGood("tr", m.trackers);
    ListGood("ws", m.webSeeds);
    ListGood("as", m.acceptableSources);
    OptionalGood("xs", m.exactSource);
    OptionalGood("mt", m.manifest);
    ListGood("x.pe", m.peers);
    assert AllGood(xl) && NoTopics(xl);
    hide AllGood, NoTopics, OptionalField, SizeField, ListFields, PlainKey;
    GoodAppend(dn, xl);
    GoodAppend(dn + xl, tr);
    GoodAppend(dn + xl + tr, ws);
    GoodAppend(dn + xl + tr + ws, as_);
    GoodAppend(dn + xl + tr + ws + as_, xs);
    GoodAppend(dn + xl + tr + ws + as_ + xs, mt);
    GoodAppend(dn + xl + tr + ws + as_ + xs + mt, pe);
  }

  lemma TopicsGood(topics: seq<Text>)
    requires forall k :: 0 <= k < |topics| ==> Clean(topics[k])
    ensures AllGood(TopicFields(topics))
  {
  }

  // ---- Reading the fields --------------------------------------------------------------------------------------

  function SetFields(m: Magnet, fields: seq<Field>, junk: nat -> Octet): Option<Magnet>
    decreases |fields|
  {
    if fields == [] then Some(m)
    else match SetField(m, fields[0].key, fields[0].value, junk)
         case None => None
         case Some(next) => SetFields(next, fields[1..], junk)
  }

  lemma {:induction false} SetTexts(m: Magnet, fields: seq<Field>, junk: nat -> Octet)
    requires AllGood(fields)
    ensures SetParts(m, Texts(fields), junk) == SetFields(m, fields, junk)
    decreases |fields|
  {
    hide SetField, Part;
    if fields != [] {
      assert Texts(fields)[1..] == Texts(fields[1..]);
      GoodPart(fields[0]);
      var next := SetField(m, fields[0].key, fields[0].value, junk);
      if next.Some? {
        SetTexts(next.value, fields[1..], junk);
      }
    }
  }

  lemma {:induction false} SetFieldsAppend(m: Magnet, a: seq<Field>, b: seq<Field>, next: Magnet, junk: nat -> Octet)
    requires SetFields(m, a, junk) == Some(next)
    ensures SetFields(m, a + b, junk) == SetFields(next, b, junk)
    decreases |a|
  {
    hide SetField;
    if a == [] {
      assert a + b == b;
    } else {
      assert (a + b)[1..] == a[1..] + b;
      SetFieldsAppend(SetField(m, a[0].key, a[0].value, junk).value, a[1..], b, next, junk);
    }
  }

  /** The magnet with more values under a key that may occur several times. */
  function Extend(m: Magnet, key: Text, values: seq<Text>): Magnet {
    if key == "tr" then m.(trackers := m.trackers + values)
    else if key == "ws" then m.(webSeeds := m.webSeeds + values)
    else if key == "as" then m.(acceptableSources := m.acceptableSources + values)
    else if key == "x.pe" then m.(peers := m.peers + values)
    else m
  }

  predicate ListKey(key: Text) {
    key == "tr" || key == "ws" || key == "as" || key == "x.pe"
  }

  lemma ExtendNone(m: Magnet, key: Text)
    ensures Extend(m, key, []) == m
  {
  }

  lemma ExtendMore(m: Magnet, key: Text, value: Text, values: seq<Text>)
    ensures Extend(Extend(m, key, [value]), key, values) == Extend(m, key, [value] + values)
  {
    AppendThree(m.trackers, [value], values);
    AppendThree(m.webSeeds, [value], values);
    AppendThree(m.acceptableSources, [value], values);
    AppendThree(m.peers, [value], values);
  }

  lemma SetListField(m: Magnet, key: Text, value: Text, junk: nat -> Octet)
    requires ListKey(key)
    ensures SetField(m, key, Encode(value), junk) == Some(Extend(m, key, [value]))
  {
    DecodeInvertsEncode(value, junk);
    hide Decode;
  }

  lemma {:induction false} SetList(m: Magnet, key: Text, values: seq<Text>, junk: nat -> Octet)
    requires ListKey(key)
    ensures SetFields(m, ListFields(key, values), junk) == Some(Extend(m, key, values))
    decreases |values|
  {
    hide Extend, SetField, ListKey;
    if values == [] {
      ExtendNone(m, key);
    } else {
      SetListField(m, key, values[0], junk);
      SetList(Extend(m, key, [values[0]]), key, values[1..], junk);
      ExtendMore(m, key, values[0], values[1..]);
      assert [values[0]] + values[1..] == values;
      assert ListFields(key, values)[1..] == ListFields(key, values[1..]);
    }
  }

  lemma {:induction false} SetTopics(m: Magnet, topics: seq<Text>, junk: nat -> Octet)
    requires forall k :: 0 <= k < |topics| ==> Clean(topics[k])
    ensures SetFields(m, TopicFields(topics), junk) == Some(m.(topics := m.topics + topics))
    decreases |topics|
  {
    if topics == [] {
      assert m.topics + [] == m.topics;
    } else {
      DecodePlain(topics[0], junk);
      var next := m.(topics := m.topics + [topics[0]]);
      assert SetField(m, "xt", topics[0], junk) == Some(next);
      hide SetField, Clean;
      SetTopics(next, topics[1..], junk);
      AppendThree(m.topics, [topics[0]], topics[1..]);
      assert [topics[0]] + topics[1..] == topics;
      assert TopicFields(topics)[1..] == TopicFields(topics[1..]);
    }
  }

  function WithText(m: Magnet, key: Text, value: Text): Magnet {
    if key == "dn" then m.(displayName := value)
    else if key == "xs" then m.(exactSource := value)
    else if key == "mt" then m.(manifest := value)
    else m
  }

  lemma SetOptional(m: Magnet, key: Text, value: Text, junk: nat -> Octet)
    requires key == "dn" || key == "xs" || key == "mt"
    ensures SetFields(m, OptionalField(key, value), junk) == Some(if value == [] then m else WithText(m, key, value))
  {
    DecodeInvertsEncode(value, junk);
    hide Decode;
    var f := Field(key, Encode(value));
    assert [f][1..] == [];
  }

  lemma SetSize(m: Magnet, size: nat, junk: nat -> Octet)
    requires size < TWO_TO_THE_64
    ensures SetFields(m, SizeField(size), junk) == Some(if size == 0 then m else m.(size := size))
  {
    DecimalRoundTrip(size);
    EncodeKeepsUnreserved(Decimal(size));
    hide Encode, Decimal, DecimalValue;
    var f := Field("xl", Encode(Decimal(size)));
    assert [f][1..] == [];
  }

  // ---- Whole links ---------------------------------------------------------------------------------------------

  ghost predicate Writable(m: Magnet) {
    m.size < TWO_TO_THE_64 && m.keywords == {}
  }

  ghost predicate AllClean(topics: seq<Text>) {
    forall k :: 0 <= k < |topics| ==> Clean(topics[k])
  }

  /** The magnet that is read: a size of 0 is not written, so that field keeps what it held. */
  function ReadAs(m: Magnet, size: nat): Magnet {
    if m.size == 0 then m.(size := size) else m
  }

  lemma SetOthers(m: Magnet, size: nat, junk: nat -> Octet)
    requires Writable(m)
    ensures SetFields(Blank(size).(topics := m.topics), OtherFields(m), junk) == Some(ReadAs(m, size))
  {
    var m0 := Blank(size).(topics := m.topics);
    var m1 := m0.(displayName := m.displayName);
    var m2 := if m.size == 0 then m1 else m1.(size := m.size);
    var m3 := Extend(m2, "tr", m.trackers);
    var m4 := Extend(m3, "ws", m.webSeeds);
    var m5 := Extend(m4, "as", m.acceptableSources);
    var m6 := m5.(exactSource := m.exactSource);
    var m7 := m6.(manifest := m.manifest);
    var m8 := Extend(m7, "x.pe", m.peers);
    assert m8 == ReadAs(m, size) by {
      assert forall v: seq<Text> :: [] + v == v;
    }
    SetOptional(m0, "dn", m.displayName, junk);
    SetSize(m1, m.size, junk);
    SetList(m2, "tr", m.trackers, junk);
    SetList(m3, "ws", m.webSeeds, junk);
    SetList(m4, "as", m.acceptableSources, junk);
    SetOptional(m5, "xs", m.exactSource, junk);
    SetOptional(m6, "mt", m.manifest, junk);
    SetList(m7, "x.pe", m.peers, junk);
    var dn, xl := OptionalField("dn", m.displayName), SizeField(m.size);
    var tr, ws, as_ := ListFields("tr", m.trackers), ListFields("ws", m.webSeeds),
      ListFields("as", m.acceptableSources);
    var xs, mt, pe := OptionalField("xs", m.exactSource), OptionalField("mt", m.manifest), ListFields("x.pe", m.peers);
    hide SetFields, OptionalField, SizeField, ListFields, Extend, ReadAs;
    SetFieldsAppend(m0, dn, xl, m1, junk);
    SetFieldsAppend(m0, dn + xl, tr, m2, junk);
    SetFieldsAppend(m0, dn + xl + tr, ws, m3, junk);
    SetFieldsAppend(m0, dn + xl + tr + ws, as_, m4, junk);
    SetFieldsAppend(m0, dn + xl + tr + ws + as_, xs, m5, junk);
    SetFieldsAppend(m0, dn + xl + tr + ws + as_ + xs, mt, m6, junk);
    SetFieldsAppend(m0, dn + xl + tr + ws + as_ + xs + mt, pe, m7, junk);
  }

  lemma ParseQuery(m: Magnet, junk: nat -> Octet, size: nat)
    ensures Parse(Uri(m), junk, size) == SetParts(Blank(size), Split(Query(m), '&'), junk)
  {
    hide Split, SetParts, Written, TopicText, OtherFields;
    AppendThree(INTRODUCER, TopicText(m.topics), Written(OtherFields(m)));
    TailAfter(INTRODUCER, Query(m));
  }

  lemma TailAfter(a: Text, b: Text)
    ensures a <= a + b && (a + b)[|a|..] == b
  {
  }

  /** With clean topics the parser sees the fields as written. */
  lemma CleanSplit(m: Magnet)
    requires m.topics != [] && AllClean(m.topics)
    ensures AllGood(TopicFields(m.topics) + OtherFields(m))
    ensures Split(Query(m), '&') == Texts(TopicFields(m.topics) + OtherFields(m))
  {
    QueryParts(m);
    TopicsGood(m.topics);
    OthersGood(m);
    SplitIsParts(Query(m));
    hide Parts, Split, Query, AllParts, OtherFields, AllGood, NoTopics, Part, TopicFields, Texts;
    AllPartsGood(TopicFields(m.topics));
    AllPartsGood(OtherFields(m));
    GoodTogether(TopicFields(m.topics), OtherFields(m));
    TextsAppend(TopicFields(m.topics), OtherFields(m));
    NothingDropped(Split(Query(m), '&'), TopicFields(m.topics) + OtherFields(m));
  }

  lemma TextsAppend(a: seq<Field>, b: seq<Field>)
    ensures Texts(a + b) == Texts(a) + Texts(b)
  {
    hide Part;
  }

  /** With clean topics the link reads back as written. */
  lemma CleanTopics(m: Magnet, junk: nat -> Octet, size: nat)
    requires Writable(m) && m.topics != [] && AllClean(m.topics)
    ensures Parse(Uri(m), junk, size) == Some(ReadAs(m, size))
  {
    ParseQuery(m, junk, size);
    CleanSplit(m);
    hide Split, SetParts, SetFields, Uri, Parse, Query, ReadAs, OtherFields, AllGood, TopicFields, Texts, AllClean;
    CleanFields(m, size, junk);
    SetTexts(Blank(size), TopicFields(m.topics) + OtherFields(m), junk);
  }

  lemma GoodTogether(a: seq<Field>, b: seq<Field>)
    requires AllGood(a) && AllGood(b)
    ensures AllGood(a + b)
  {
  }

  lemma CleanFields(m: Magnet, size: nat, junk: nat -> Octet)
    requires Writable(m) && AllClean(m.topics)
    ensures SetFields(Blank(size), TopicFields(m.topics) + OtherFields(m), junk) == Some(ReadAs(m, size))
  {
    SetTopics(Blank(size), m.topics, junk);
    assert [] + m.topics == m.topics;
    hide SetFields, TopicFields, OtherFields, ReadAs;
    SetOthers(m, size, junk);
    SetFieldsAppend(Blank(size), TopicFields(m.topics), OtherFields(m), Blank(size).(topics := m.topics), junk);
  }

  /** No part of a written field is empty, so the parser's split drops none. */
  lemma NothingDropped(split: seq<Text>, fields: seq<Field>)
    requires split == Texts(fields) || split + [[]] == Texts(fields)
    ensures split == Texts(fields)
  {
    assert (split + [[]])[|split|] == [];
    forall k | 0 <= k < |fields| ensures Texts(fields)[k] != [] {
      assert |Part(fields[k])| > 0;
    }
  }

  /** A topic with an ampersand or a percent sign is lost, whatever else comes back. */
  lemma DirtyTopics(m: Magnet, junk: nat -> Octet, size: nat)
    requires m.topics != [] && !AllClean(m.topics)
    ensures Parse(Uri(m), junk, size) != Some(m)
  {
    ParseQuery(m, junk, size);
    QueryParts(m);
    OthersGood(m);
    AllPartsGood(OtherFields(m));
    NoTopicLengths(OtherFields(m), junk);
    TopicsLoss(m.topics, junk);
    SplitIsParts(Query(m));
    assert Total([]) == 0;
    hide Parts, Split, SetParts, Uri, Parse, Query, AllParts, OtherFields, AllGood, NoTopics, TopicFields,
      TopicLengths, Texts, Total, Clean;
    LengthsAppend(AllParts(TopicFields(m.topics)), AllParts(OtherFields(m)), junk);
    var split := Split(Query(m), '&');
    LengthsAppend(split, [[]], junk);
    LengthsOne([], junk);
    if SetParts(Blank(size), split, junk).Some? {
      SetPartsTopics(Blank(size), split, junk);
    }
  }

  /** Without topics the link is empty, or starts with an ampersand and is rejected. */
  lemma NoTopicAtAll(m: Magnet, junk: nat -> Octet, size: nat)
    requires m.topics == []
    ensures Parse(Uri(m), junk, size) == if OtherFields(m) == [] then Some(Blank(size)) else None
  {
    ParseQuery(m, junk, size);
    var others := OtherFields(m);
    WrittenNonEmpty(others);
    assert Query(m) == Written(others);
    hide Parse, Uri, OtherFields, Written;
    if others != [] {
      var q := Query(m);
      assert IndexOf(q, '&') == 0 && q[..0] == [];
      assert Split(q, '&')[0] == [];
      assert SplitKeyValue([]) == None;
    }
  }

  /**
   * The round trip, exactly: a link written from a magnet without keywords reads back as that magnet, whatever the
   * uninitialised size field holds, if and only if it has a topic, its size is not 0, and no topic has an ampersand or
   * a percent sign in it.
   */
  lemma MagnetRoundTrips(m: Magnet, junk: nat -> Octet)
    requires Writable(m)
    ensures (forall size: nat :: size < TWO_TO_THE_64 ==> Parse(Uri(m), junk, size) == Some(m))
            <==> m.topics != [] && m.size != 0 && AllClean(m.topics)
  {
    if m.topics == [] {
      NoTopicAtAll(m, junk, 0);
      NoTopicAtAll(m, junk, 1);
    } else if !AllClean(m.topics) {
      DirtyTopics(m, junk, 0);
    } else {
      forall size: nat ensures Parse(Uri(m), junk, size) == Some(ReadAs(m, size)) {
        CleanTopics(m, junk, size);
      }
      hide Parse, Uri;
      assert Parse(Uri(m), junk, 1) == Some(ReadAs(m, 1));
    }
  }
}
