/**
 How the sending client turns collected `NAME=VALUE` and `NAME~VALUE` items into message content
 (src/api/qpid-proton/reactor/SendingClient.cpp).
 */
module MessageContent {
  import opened CppStrings
  import opened AppendCallback

  // `Double` keeps the text that atof would read.
  datatype MessageValue = Text(text: string) | Boolean(b: bool) | Long(n: int) | Double(source: string)

  // ---------- name and value ----------

  /** What `nameVal` leaves in its out-parameters. */
  datatype NameValue = NameValue(hasValue: bool, name: string, value: string, separator: string)

  /** `in` cut at the separator at `i`: an empty value counts as none and leaves `value` alone. */
  function CutAt(s: string, i: nat, separator: string, value: string): NameValue
    requires i < |s|
  {
    if i + 1 < |s| then NameValue(true, s[..i], s[i + 1..], separator)
    else NameValue(false, s[..i], value, separator)
  }

  function NameValueOf(s: string, value: string): NameValue {
    match IndexOf(s, "=", 0)
    case Some(i) => CutAt(s, i, "=", value)
    case None =>
      match IndexOf(s, "~", 0)
      case Some(i) => CutAt(s, i, "~", value)
      case None => NameValue(false, s, value, "~")
  }

  /** `nameVal`; `value0` is what the caller's `value` held before. */
  method NameVal(s: string, value0: string) returns (r: bool, name: string, value: string, separator: string)
    requires |s| <= MAX_SIZE
    ensures NameValue(r, name, value, separator) == NameValueOf(s, value0)
  {
    var i := Find(s, "=", 0);
    value := value0;
    separator := "=";
    if i == NPOS {
      i := Find(s, "~", 0);
      separator := "~";
      if i == NPOS {
        name := s;
        return false, name, value, separator;
      }
    }
    name := s[..i];
    if i + 1 < |s| {
      value := s[i + 1..];
      r := true;
    } else {
      r := false;
    }
  }

  /** `NAME=VALUE` gives back both parts for every value and every name without `=`. */
  lemma NameValueRoundTrip(name: string, value: string)
    requires '=' !in name
    ensures NameValueOf(name + "=" + value, "") == NameValue(value != "", name, value, "=")
  {
    var s := name + "=" + value;
    assert s[0..|name|] == name && s[..|name|] == name && s[|name|] == '=' && s[|name| + 1..] == value;
    FoundChar(s, '=', 0, |name|);
  }

  // ---------- typed values ----------

  function LowerChar(c: char): char {
    if 'A' <= c <= 'Z' then (c as int + 32) as char else c
  }

  function Lower(s: string): string {
    seq(|s|, i requires 0 <= i < |s| => LowerChar(s[i]))
  }

  predicate LooksDouble(s: string) {
    '.' in s || 'e' in s || 'E' in s
  }

  /** The auto-cast of a `~` value in a map or property. */
  function CastValue(value: string): MessageValue {
    if Lower(value) == "true" then Boolean(true)
    else if Lower(value) == "false" then Boolean(false)
    else if LooksDouble(value) then Double(value)
    else Long(ScanLong(value))
  }

  /** A list item's auto-cast keeps a value with another `~` in it as a string. */
  function CastListValue(value: string): MessageValue {
    if CastValue(value).Long? && '~' in value then Text(value) else CastValue(value)
  }

  /** A printed integer is cast back to that integer, as far as a long reaches. */
  lemma CastDecimal(n: int)
    ensures CastValue(Decimal(n)) == Long(Clamped(n))
  {
    hide Decimal, ScanLong;
    var s := Decimal(n);
    DecimalChars(n);
    assert Lower(s)[0] == s[0];
    ScanDecimal(n);
  }

  /** `NAME~INTEGER` puts the integer under NAME. */
  lemma TypedValueRoundTrip(name: string, n: int)
    requires '=' !in name && '~' !in name && LONG_MIN <= n <= LONG_MAX
    ensures MapItem(map[], name + "~" + Decimal(n)) == map[name := Long(n)]
  {
    hide Decimal, CastValue, IndexOf;
    var value := Decimal(n);
    var s := name + "~" + value;
    DecimalChars(n);
    assert s[0..] == s && s[0..|name|] == name && s[..|name|] == name && s[|name| + 1..] == value;
    NotFoundChar(s, '=', 0);
    FoundChar(s, '~', 0, |name|);
    CastDecimal(n);
  }

  /** `true` in any mixture of upper and lower case. */
  predicate SaysTrue(s: string) {
    |s| == 4 && s[0] in "tT" && s[1] in "rR" && s[2] in "uU" && s[3] in "eE"
  }

  predicate SaysFalse(s: string) {
    |s| == 5 && s[0] in "fF" && s[1] in "aA" && s[2] in "lL" && s[3] in "sS" && s[4] in "eE"
  }

  /** What a value behind `~` becomes, by its text. */
  lemma CastKinds(value: string)
    ensures SaysTrue(value) ==> CastValue(value) == Boolean(true)
    ensures SaysFalse(value) ==> CastValue(value) == Boolean(false)
    ensures !SaysTrue(value) && !SaysFalse(value) ==>
              CastValue(value) ==
              if '.' in value || 'e' in value || 'E' in value then Double(value) else Long(ScanLong(value))
  {
    hide ScanLong;
    var t := Lower(value);
    assert t == "true" ==> t[0] == 't' && t[1] == 'r' && t[2] == 'u' && t[3] == 'e';
    assert t == "false" ==> t[0] == 'f' && t[1] == 'a' && t[2] == 'l' && t[3] == 's' && t[4] == 'e';
    assert SaysTrue(value) ==> t == "true";
    assert SaysFalse(value) ==> t == "false";
  }

  // ---------- maps ----------

  type MessageMap = map<string, MessageValue>

  function MapItem(m: MessageMap, property: string): MessageMap {
    var nv := NameValueOf(property, "");
    if nv.hasValue && nv.separator == "~" then m[nv.name := CastValue(nv.value)] else m[nv.name := Text(nv.value)]
  }

  function MapItems(m: MessageMap, properties: seq<string>): MessageMap
    decreases |properties|
  {
    if properties == [] then m else MapItems(MapItem(m, properties[0]), properties[1..])
  }

  method SetMessageMapItem(property: string, m: MessageMap) returns (m': MessageMap)
    requires |property| <= MAX_SIZE
    ensures m' == MapItem(m, property)
  {
    var hasValue, name, val, separator := NameVal(property, "");
    if hasValue {
      if separator == "~" {
        var temp := Lower(val);
        if temp == "true" {
          m' := m[name := Boolean(true)];
        } else if temp == "false" {
          m' := m[name := Boolean(false)];
        } else if '.' in val || 'e' in val || 'E' in val {
          m' := m[name := Double(val)];
        } else {
          m' := m[name := Long(ScanLong(val))];
        }
      } else {
        m' := m[name := Text(val)];
      }
    } else {
      m' := m[name := Text(val)];
    }
  }

  method SetMessageMap(callbackMap: StringAppendCallback) returns (body: MessageMap)
    requires |callbackMap.str| <= MAX_SIZE
    ensures body == MapItems(map[], Items(callbackMap.str))
  {
    hide MapItem, Items;
    var items := callbackMap.GetStrings();
    ItemsAreShort(callbackMap.str);
    body := map[];
    for i := 0 to |items|
      invariant MapItems(body, items[i..]) == MapItems(map[], items)
    {
      assert items[i..][1..] == items[i + 1..] && items[i] in items;
      body := SetMessageMapItem(items[i], body);
    }
  }

  lemma {:induction false} ItemsFromAreShort(str: string, start: nat)
    requires start <= |str|
    ensures forall x | x in ItemsFrom(str, start) :: |x| <= |str|
    decreases |str| - start
  {
    var r := IndexOf(str, ";", start);
    if r.Some? {
      ItemsFromAreShort(str, r.value + 1);
    }
  }

  lemma ItemsAreShort(str: string)
    ensures forall x | x in Items(str) :: |x| <= |str|
  {
    ItemsFromAreShort(str, 0);
  }

  // ---------- lists ----------

  function ListItem(property: string): MessageValue {
    var nv := NameValueOf(property, "");
    if nv.hasValue && nv.separator == "~" then CastListValue(nv.value) else Text(nv.name)
  }

  function ListItems(properties: seq<string>): seq<MessageValue> {
    seq(|properties|, i requires 0 <= i < |properties| => ListItem(properties[i]))
  }

  lemma NoListItems()
    ensures ListItems([]) == []
  {
  }

  lemma ListItemsSnoc(properties: seq<string>, property: string)
    ensures ListItems(properties + [property]) == ListItems(properties) + [ListItem(property)]
  {
  }

  method SetMessageListItem(property: string, l: seq<MessageValue>) returns (l': seq<MessageValue>)
    requires |property| <= MAX_SIZE
    ensures l' == l + [ListItem(property)]
  {
    var hasValue, name, val, separator := NameVal(property, "");
    if hasValue {
      if separator == "~" {
        var temp := Lower(val);
        if temp == "true" {
          l' := l + [Boolean(true)];
        } else if temp == "false" {
          l' := l + [Boolean(false)];
        } else if '.' in val || 'e' in val || 'E' in val {
          l' := l + [Double(val)];
        } else if '~' in val {
          l' := l + [Text(val)];
        } else {
          l' := l + [Long(ScanLong(val))];
        }
      } else {
        l' := l + [Text(name)];
      }
    } else {
      l' := l + [Text(name)];
    }
  }

  method SetMessageList(callbackList: StringAppendCallback) returns (body: seq<MessageValue>)
    requires |callbackList.str| <= MAX_SIZE
    ensures body == ListItems(Items(callbackList.str))
  {
    hide ListItem, ListItems, Items;
    NoListItems();
    var items := callbackList.GetStrings();
    ItemsAreShort(callbackList.str);
    body := [];
    for i := 0 to |items|
      invariant body == ListItems(items[..i])
    {
      assert items[i] in items && items[..i + 1] == items[..i] + [items[i]];
      ListItemsSnoc(items[..i], items[i]);
      body := SetMessageListItem(items[i], body);
    }
    assert items[..|items|] == items;
  }

  // ---------- one item ----------

  lemma TypedName(name: string, value: string)
    requires '=' !in name && '~' !in name && '=' !in value
    ensures NameValueOf(name + "~" + value, "") == NameValue(value != "", name, value, "~")
  {
    var s := name + "~" + value;
    assert s[0..] == s && s[0..|name|] == name && s[..|name|] == name && s[|name| + 1..] == value;
    NotFoundChar(s, '=', 0);
    FoundChar(s, '~', 0, |name|);
  }

  lemma NameAlone(name: string)
    requires '=' !in name && '~' !in name
    ensures NameValueOf(name, "") == NameValue(false, name, "", "~")
  {
    assert name[0..] == name;
    NotFoundChar(name, '=', 0);
    NotFoundChar(name, '~', 0);
  }

  /** What `name~value` puts into a map and into a list: a boolean, a double, a long, or in a list a string with a `~`. */
  lemma TypedItems(m: MessageMap, name: string, value: string)
    requires '=' !in name && '~' !in name && '=' !in value && value != ""
    ensures MapItem(m, name + "~" + value) ==
            m[name := if SaysTrue(value) then Boolean(true)
                      else if SaysFalse(value) then Boolean(false)
                      else if '.' in value || 'e' in value || 'E' in value then Double(value)
                      else Long(ScanLong(value))]
    ensures ListItem(name + "~" + value) ==
            if SaysTrue(value) then Boolean(true)
            else if SaysFalse(value) then Boolean(false)
            else if '.' in value || 'e' in value || 'E' in value then Double(value)
            else if '~' in value then Text(value)
            else Long(ScanLong(value))
  {
    hide NameValueOf, CastValue, ScanLong, SaysTrue, SaysFalse;
    TypedName(name, value);
    CastKinds(value);
  }

  /** Without a type or a value: a map entry holds the text behind `=`, or the empty text; a list item is the name alone. */
  lemma UntypedItems(m: MessageMap, name: string, value: string)
    requires '=' !in name
    ensures MapItem(m, name + "=" + value) == m[name := Text(value)] && ListItem(name + "=" + value) == Text(name)
    ensures '~' !in name ==> MapItem(m, name) == MapItem(m, name + "~") == m[name := Text("")]
    ensures '~' !in name ==> ListItem(name) == ListItem(name + "~") == Text(name)
  {
    hide NameValueOf;
    NameValueRoundTrip(name, value);
    if '~' !in name {
      NameAlone(name);
      TypedName(name, "");
      assert name + "~" + "" == name + "~";
    }
  }

  /** `n~False` is a boolean, `n~1.5` a double. */
  lemma TypedInstances(m: MessageMap)
    ensures MapItem(m, "n" + "~" + "False") == m["n" := Boolean(false)]
    ensures MapItem(m, "n" + "~" + "1.5") == m["n" := Double("1.5")]
  {
    hide MapItem, ListItem, ScanLong, CastValue, NameValueOf, Lower;
    assert "1.5"[1] == '.';
    TypedItems(m, "n", "False");
    TypedItems(m, "n", "1.5");
  }

  // ---------- the kind of body ----------

  datatype Body = ListBody(items: seq<MessageValue>) | MapBody(entries: MessageMap) | TextBody(text: string)

  /** List items go before map items, and without either the body is the plain content. */
  function BodyOf(listText: string, mapText: string, content: string): Body {
    if listText != "" then ListBody(ListItems(Items(listText)))
    else if mapText != "" then MapBody(MapItems(map[], Items(mapText)))
    else TextBody(content)
  }

  method SetMessageContent(callbackList: StringAppendCallback, callbackMap: StringAppendCallback, content: string)
    returns (body: Body)
    requires |callbackList.str| <= MAX_SIZE && |callbackMap.str| <= MAX_SIZE
    ensures body == BodyOf(callbackList.str, callbackMap.str, content)
  {
    if |callbackList.str| > 0 {
      var items := SetMessageList(callbackList);
      body := ListBody(items);
    } else if |callbackMap.str| > 0 {
      var entries := SetMessageMap(callbackMap);
      body := MapBody(entries);
    } else {
      body := TextBody(content);
    }
  }

  // ---------- what arrives ----------

  type Pair = (string, string)

  function ItemOf(p: Pair): string {
    p.0 + "=" + p.1
  }

  function ItemsOf(pairs: seq<Pair>): seq<string> {
    if pairs == [] then [] else [ItemOf(pairs[0])] + ItemsOf(pairs[1..])
  }

  function LastWins(start: MessageMap, pairs: seq<Pair>): MessageMap
    decreases |pairs|
  {
    if pairs == [] then start else LastWins(start[pairs[0].0 := Text(pairs[0].1)], pairs[1..])
  }

  /** A pair that survives the `;` and `=` encoding. */
  predicate Encodable(p: Pair) {
    ';' !in p.0 && ';' !in p.1 && '=' !in p.0
  }

  lemma {:induction false} MapItemsOfPairs(start: MessageMap, pairs: seq<Pair>)
    requires forall p | p in pairs :: Encodable(p)
    ensures MapItems(start, ItemsOf(pairs)) == LastWins(start, pairs)
    decreases |pairs|
  {
    if pairs != [] {
      var p := pairs[0];
      assert p in pairs;
      NameValueRoundTrip(p.0, p.1);
      assert ItemsOf(pairs)[1..] == ItemsOf(pairs[1..]) && ItemsOf(pairs)[0] == ItemOf(p);
      MapItemsOfPairs(start[p.0 := Text(p.1)], pairs[1..]);
    }
  }

  lemma {:induction false} EncodableItemsAreClean(pairs: seq<Pair>)
    requires forall p | p in pairs :: Encodable(p)
    ensures Clean(ItemsOf(pairs))
    decreases |pairs|
  {
    if pairs != [] {
      assert pairs[0] in pairs;
      assert ItemOf(pairs[0])[|pairs[0].0|] == '=';
      EncodableItemsAreClean(pairs[1..]);
    }
  }

  /** Collected pairs arrive as their last-wins map, empty values included. */
  lemma CollectedPairsArrive(pairs: seq<Pair>)
    requires forall p | p in pairs :: Encodable(p)
    ensures MapItems(map[], Items(AppendedAll("", ItemsOf(pairs)))) == LastWins(map[], pairs)
  {
    EncodableItemsAreClean(pairs);
    RoundTripIffClean(ItemsOf(pairs));
    MapItemsOfPairs(map[], pairs);
  }

  /** No key has a `;` or `=`, no string value a `;`. */
  ghost predicate CleanMap(m: MessageMap) {
    forall k | k in m :: ';' !in k && '=' !in k && (m[k].Text? ==> ';' !in m[k].text)
  }

  lemma NameOfCleanItem(item: string)
    requires ';' !in item
    ensures var nv := NameValueOf(item, ""); ';' !in nv.name && '=' !in nv.name && ';' !in nv.value
  {
    FindChar(item, '=', 0);
    FindChar(item, '~', 0);
    var eq := IndexOf(item, "=", 0);
    if eq.Some? {
      assert item[..eq.value] == item[0..eq.value];
    } else {
      assert item[0..] == item;
    }
  }

  lemma {:induction false} MapStaysClean(m: MessageMap, items: seq<string>)
    requires CleanMap(m) && forall x | x in items :: ';' !in x
    ensures CleanMap(MapItems(m, items))
    decreases |items|
  {
    if items != [] {
      assert items[0] in items;
      NameOfCleanItem(items[0]);
      MapStaysClean(MapItem(m, items[0]), items[1..]);
    }
  }

  /** One pair arrives as itself exactly when it is encodable. */
  lemma OnePairArrivesIff(p: Pair)
    ensures MapItems(map[], Items(AppendedAll("", [ItemOf(p)]))) == map[p.0 := Text(p.1)] <==> Encodable(p)
  {
    var items := [ItemOf(p)];
    if Encodable(p) {
      assert ItemsOf([p]) == items + ItemsOf([p][1..]) == items;
      CollectedPairsArrive([p]);
      assert LastWins(map[], [p]) == LastWins(map[p.0 := Text(p.1)], [p][1..]) == map[p.0 := Text(p.1)];
    }
    ItemsOfAppends(items);
    ContributionsAreClean(items);
    MapStaysClean(map[], Contributions(items));
    assert p.0 in map[p.0 := Text(p.1)];
  }

  /** A list item arrives as the string it is exactly when it has none of `;`, `=`, `~` and is not `''`. */
  lemma OneListItemArrivesIff(item: string)
    ensures ListItems(Items(AppendedAll("", [item]))) == [Text(item)]
            <==> ';' !in item && '=' !in item && '~' !in item && item != "''"
  {
    ItemsOfAppends([item]);
    ContributionsAreClean([item]);
    RoundTripIffClean([item]);
    var got := Items(AppendedAll("", [item]));
    if Clean([item]) {
      assert item in [item];
      ListItemIsText(item);
      assert got == [item];
      assert ListItems(got) == [ListItem(item)];
    } else if item == "''" {
      assert item[0..] == item;
      NotFoundChar(item, ';', 0);
      assert Contributions([item]) == [""] + Contributions([item][1..]) == [""];
      ListItemIsText("");
      assert ListItems(got)[0] == Text("");
    } else if |got| == 1 {
      var x := got[0];
      assert x in got;
      ListItemText(x);
      assert ListItems(got) == [ListItem(x)];
    }
  }

  predicate PlainItem(item: string) {
    ';' !in item && '=' !in item && '~' !in item && item != "''"
  }

  function Texts(items: seq<string>): seq<MessageValue> {
    seq(|items|, i requires 0 <= i < |items| => Text(items[i]))
  }

  /** Items without a separator come back one for one, with the marker read as the empty string. */
  lemma {:induction false} MarkersBecomeEmpty(items: seq<string>)
    requires forall x | x in items :: ';' !in x
    ensures var got := Contributions(items);
            |got| == |items| && forall i | 0 <= i < |items| :: got[i] == if items[i] == "''" then "" else items[i]
  {
    if items != [] {
      var item := items[0];
      assert item in items && item[0..] == item;
      NotFoundChar(item, ';', 0);
      MarkersBecomeEmpty(items[1..]);
    }
  }

  /** Any list items arrive as the strings they are exactly when every one of them is plain. */
  lemma ListItemsArriveIff(items: seq<string>)
    ensures ListItems(Items(AppendedAll("", items))) == Texts(items) <==> forall x | x in items :: PlainItem(x)
  {
    hide Items, AppendedAll, Contributions, ListItem;
    var got := Items(AppendedAll("", items));
    ItemsOfAppends(items);
    ContributionsAreClean(items);
    if forall x | x in items :: PlainItem(x) {
      MarkersBecomeEmpty(items);
      forall i | 0 <= i < |items|
        ensures ListItem(got[i]) == Text(items[i])
      {
        assert items[i] in items && PlainItem(items[i]);
        ListItemIsText(items[i]);
      }
    } else if ListItems(got) == Texts(items) {
      forall i | 0 <= i < |items|
        ensures ListItem(got[i]) == Text(items[i]) && ';' !in items[i]
      {
        assert ListItems(got)[i] == ListItem(got[i]) && Texts(items)[i] == Text(items[i]);
        assert got[i] in got;
        ListItemText(got[i]);
      }
      MarkersBecomeEmpty(items);
      var i :| 0 <= i < |items| && !PlainItem(items[i]);
      ListItemIsText("");
      ListItemIsText(items[i]);
      assert false;
    }
  }

  /** A string list value is the item itself or part of it. */
  lemma ListItemText(item: string)
    ensures ListItem(item).Text? ==> forall c | c in ListItem(item).text :: c in item
  {
  }

  lemma ListItemIsText(item: string)
    ensures ListItem(item) == Text(item) <==> '=' !in item && '~' !in item
  {
    FindChar(item, '=', 0);
    FindChar(item, '~', 0);
    assert item[0..] == item;
    var nv := NameValueOf(item, "");
    assert '=' in item || '~' in item ==> |nv.name| < |item| && |nv.value| < |item|;
  }

  /**
   Which body collected items give: list items go before map items and arrive as the strings they are exactly when all
   are plain; otherwise the map items arrive as their last-wins map; without either the body is the plain content.
   */
  lemma BodyArrives(items: seq<string>, mapItems: seq<string>, pairs: seq<Pair>, content: string)
    ensures var body := BodyOf(AppendedAll("", items), AppendedAll("", mapItems), content);
            && (items != [] ==> (body == ListBody(Texts(items)) <==> forall x | x in items :: PlainItem(x)))
            && (items == [] && pairs != [] && mapItems == ItemsOf(pairs) && (forall p | p in pairs :: Encodable(p)) ==>
                  body == MapBody(LastWins(map[], pairs)))
            && (items == [] && mapItems == [] ==> body == TextBody(content))
  {
    hide Items, AppendedAll, ListItems, MapItems, LastWins, PlainItem, Encodable;
    CollectedIsEmpty("", items);
    CollectedIsEmpty("", mapItems);
    ListItemsArriveIff(items);
    if forall p | p in pairs :: Encodable(p) {
      CollectedPairsArrive(pairs);
    }
    assert pairs != [] ==> ItemsOf(pairs) != [];
  }
}
