/** Reading a create, update or delete payload: one object, an array of objects or
    an object that wraps the array, all normalised into a list of items. */
module Payload {
  import opened Feed

  /** A JSON value. Objects keep their members as sent, repeated keys included. */
  datatype Value =
    | Null
    | Bool(b: bool)
    | Number(n: int)
    | Str(s: string)
    | Arr(elements: seq<Value>)
    | Obj(members: seq<(string, Value)>)

  /** What libraries decide: white space, the bytes of a character, valid dates. */
  datatype Rules = Rules(isSpace: char -> bool, bytes: char -> nat, isDate: string -> bool)

  datatype FieldName = Title | ImageUrl | FeedUrl | ActualUrl | PublishDate

  // ---------------------------------------------------------- validate_string

  function Stripped(r: Rules, s: string): (t: string)
    ensures |t| <= |s|
    ensures t == "" || (!r.isSpace(t[0]) && !r.isSpace(t[|t| - 1]))
  {
    if s == "" then ""
    else if r.isSpace(s[0]) then Stripped(r, s[1..])
    else if r.isSpace(s[|s| - 1]) then Stripped(r, s[..|s| - 1])
    else s
  }

  function Bytes(r: Rules, s: string): nat {
    if s == "" then 0 else r.bytes(s[0]) + Bytes(r, s[1..])
  }

  function ValidateString(r: Rules, s: string, maxLen: nat): Option<string> {
    var trimmed := Stripped(r, s);
    if trimmed == "" || Bytes(r, trimmed) > maxLen then None else Some(trimmed)
  }

  function MaxLen(f: FieldName): nat {
    match f
    case Title => 255
    case PublishDate => 50
    case _ => 2048
  }

  predicate HasScheme(s: string) {
    "http://" <= s || "https://" <= s
  }

  /** The check after the trim: a scheme on URLs, a valid date. */
  predicate Accepts(r: Rules, f: FieldName, s: string) {
    match f
    case Title => true
    case PublishDate => r.isDate(s)
    case _ => HasScheme(s)
  }

  /** One field: null is absent, a text is normalised and checked. The outer `None`
      is an error. */
  function ReadField(r: Rules, f: FieldName, v: Value): Option<Option<string>> {
    match v
    case Null => Some(None)
    case Str(s) =>
      var t := ValidateString(r, s, MaxLen(f));
      if t.Some? && Accepts(r, f, t.value) then Some(t) else None
    case _ => None
  }

  /** A stored text: trimmed, not empty, short enough and accepted. */
  predicate Settled(r: Rules, f: FieldName, o: Option<string>) {
    o.Some? ==>
      var t := o.value;
      t != "" && !r.isSpace(t[0]) && !r.isSpace(t[|t| - 1]) && Bytes(r, t) <= MaxLen(f) && Accepts(r, f, t)
  }

  function TextValue(o: Option<string>): Value {
    if o.Some? then Str(o.value) else Null
  }

  /** Settled texts are exactly those that reading keeps. */
  lemma {:induction false} FieldFixed(r: Rules, f: FieldName, o: Option<string>)
    ensures ReadField(r, f, TextValue(o)) == Some(o) <==> Settled(r, f, o)
  {
  }

  lemma {:induction false} FieldSettles(r: Rules, f: FieldName, v: Value)
    requires ReadField(r, f, v).Some?
    ensures Settled(r, f, ReadField(r, f, v).value)
  {
  }

  // -------------------------------------------------------------------- items

  function KeyOf(f: FieldName): string {
    match f
    case Title => "title"
    case ImageUrl => "image_url"
    case FeedUrl => "feed_url"
    case ActualUrl => "actual_url"
    case PublishDate => "publish_date"
  }

  predicate IsKey(key: string) {
    exists f: FieldName :: KeyOf(f) == key
  }

  function Given(p: Item, f: FieldName): Option<string> {
    match f
    case Title => p.title
    case ImageUrl => p.imageUrl
    case FeedUrl => p.feedUrl
    case ActualUrl => p.actualUrl
    case PublishDate => p.publishDate
  }

  /** The member of an object; a missing one reads like null. */
  function Member(members: seq<(string, Value)>, key: string): Value {
    if members == [] then Null
    else if members[0].0 == key then members[0].1
    else Member(members[1..], key)
  }

  function Position(f: FieldName): nat {
    match f
    case Title => 0
    case ImageUrl => 1
    case FeedUrl => 2
    case ActualUrl => 3
    case PublishDate => 4
  }

  predicate NoneTwice(members: seq<(string, Value)>) {
    forall i, j :: 0 <= i < j < |members| ==> members[i].0 != members[j].0
  }

  /** An item is an object without unknown or repeated keys. The generated reader
      takes an array too, field by field in the order of declaration. */
  predicate ItemShape(v: Value) {
    match v
    case Obj(members) => NoneTwice(members) && forall k :: 0 <= k < |members| ==> IsKey(members[k].0)
    case Arr(elements) => |elements| <= 5
    case _ => false
  }

  function FieldValue(v: Value, f: FieldName): Value {
    match v
    case Obj(members) => Member(members, KeyOf(f))
    case Arr(elements) => if Position(f) < |elements| then elements[Position(f)] else Null
    case _ => Null
  }

  /** The item of five fields that have been read, if none of them is an error. */
  function Assembled(field: FieldName -> Option<Option<string>>): (p: Option<Item>)
    ensures p.Some? ==> forall f: FieldName :: field(f) == Some(Given(p.value, f))
    ensures p.Some? <==> forall f: FieldName :: field(f).Some?
  {
    if forall f: FieldName :: field(f).Some? then
      Some(Item(field(Title).value, field(ImageUrl).value, field(FeedUrl).value, field(ActualUrl).value, field(PublishDate).value))
    else None
  }

  function ReadItem(r: Rules, v: Value): (p: Option<Item>)
    ensures p.Some? ==> forall f: FieldName :: ReadField(r, f, FieldValue(v, f)) == Some(Given(p.value, f))
    ensures p.Some? <==> ItemShape(v) && forall f: FieldName :: ReadField(r, f, FieldValue(v, f)).Some?
  {
    if ItemShape(v) then Assembled(f => ReadField(r, f, FieldValue(v, f))) else None
  }

  /** All items of an array, or none when one of them cannot be read. */
  function ReadAll(r: Rules, vs: seq<Value>): (ps: Option<seq<Item>>)
    ensures ps.Some? ==> |ps.value| == |vs| && forall k :: 0 <= k < |vs| ==> ReadItem(r, vs[k]) == Some(ps.value[k])
  {
    if vs == [] then Some([]) else
    var n := |vs| - 1;
    var init, last := ReadAll(r, vs[..n]), ReadItem(r, vs[n]);
    if init.Some? && last.Some? then Some(init.value + [last.value]) else None
  }

  function ReadItems(r: Rules, v: Value): Option<seq<Item>> {
    if v.Arr? then ReadAll(r, v.elements) else None
  }

  // ----------------------------------------------------------------- payloads

  /** The wrapper form: its one member is `items`; again an array is taken too. */
  function ReadWrapper(r: Rules, v: Value): Option<seq<Item>> {
    match v
    case Obj(members) => if |members| == 1 && members[0].0 == "items" then ReadItems(r, members[0].1) else None
    case Arr(elements) => if |elements| == 1 then ReadItems(r, elements[0]) else None
    case _ => None
  }

  function Bounded(items: seq<Item>): Option<seq<Item>> {
    if 1 <= |items| <= 1000 then Some(items) else None
  }

  /** The first form that can be read decides, before the size is checked. */
  function Decode(r: Rules, v: Value): Option<seq<Item>> {
    if ReadWrapper(r, v).Some? then Bounded(ReadWrapper(r, v).value)
    else if ReadItems(r, v).Some? then Bounded(ReadItems(r, v).value)
    else if ReadItem(r, v).Some? then Some([ReadItem(r, v).value])
    else None
  }

  /** How an item and a payload are written again. */
  function EncodeItem(p: Item): Value {
    Obj([(KeyOf(Title), TextValue(p.title)), (KeyOf(ImageUrl), TextValue(p.imageUrl)),
         (KeyOf(FeedUrl), TextValue(p.feedUrl)), (KeyOf(ActualUrl), TextValue(p.actualUrl)),
         (KeyOf(PublishDate), TextValue(p.publishDate))])
  }

  function EncodeAll(ps: seq<Item>): (vs: seq<Value>)
    ensures |vs| == |ps| && forall k :: 0 <= k < |ps| ==> vs[k] == EncodeItem(ps[k])
  {
    seq(|ps|, k requires 0 <= k < |ps| => EncodeItem(ps[k]))
  }

  function Encode(ps: seq<Item>): Value {
    Obj([("items", Arr(EncodeAll(ps)))])
  }

  // -------------------------------------------------------------------- laws

  predicate SettledItem(r: Rules, p: Item) {
    forall f: FieldName :: Settled(r, f, Given(p, f))
  }

  predicate SettledAll(r: Rules, ps: seq<Item>) {
    forall k :: 0 <= k < |ps| ==> SettledItem(r, ps[k])
  }

  lemma {:induction false} KeysApart(f: FieldName, g: FieldName)
    ensures KeyOf(f) == KeyOf(g) <==> f == g
  {
    assert KeyOf(Title)[0] == 't' && KeyOf(ImageUrl)[0] == 'i' && KeyOf(FeedUrl)[0] == 'f';
    assert KeyOf(ActualUrl)[0] == 'a' && KeyOf(PublishDate)[0] == 'p';
  }

  /** The keys of a written item, in the order of declaration. */
  lemma {:induction false} EncodedKeys(p: Item, f: FieldName)
    ensures EncodeItem(p).members[Position(f)] == (KeyOf(f), TextValue(Given(p, f)))
  {}

  function FieldAt(k: nat): (f: FieldName)
    requires k < 5
    ensures Position(f) == k
  {
    if k == 0 then Title else if k == 1 then ImageUrl else if k == 2 then FeedUrl else if k == 3 then ActualUrl else PublishDate
  }

  lemma {:induction false} EncodedShape(p: Item)
    ensures ItemShape(EncodeItem(p))
    ensures forall f: FieldName :: FieldValue(EncodeItem(p), f) == TextValue(Given(p, f))
  {
    var m := EncodeItem(p).members;
    forall i | 0 <= i < 5
      ensures m[i].0 == KeyOf(FieldAt(i))
    {
      EncodedKeys(p, FieldAt(i));
    }
    forall i, j | 0 <= i < j < 5
      ensures m[i].0 != m[j].0
    {
      KeysApart(FieldAt(i), FieldAt(j));
    }
    forall f: FieldName
      ensures FieldValue(EncodeItem(p), f) == TextValue(Given(p, f))
    {
      EncodedKeys(p, f);
      MemberAt(m, Position(f), KeyOf(f));
    }
  }

  lemma {:induction false} MemberAt(members: seq<(string, Value)>, k: nat, key: string)
    requires k < |members| && members[k].0 == key && forall j :: 0 <= j < k ==> members[j].0 != key
    ensures Member(members, key) == members[k].1
  {
    if k > 0 {
      MemberAt(members[1..], k - 1, key);
    }
  }

  /** A written item is read back exactly when all its texts are settled. */
  lemma {:induction false} ItemRoundTrip(r: Rules, p: Item)
    ensures ReadItem(r, EncodeItem(p)) == Some(p) <==> SettledItem(r, p)
  {
    EncodedShape(p);
    forall f: FieldName
      ensures ReadField(r, f, FieldValue(EncodeItem(p), f)) == Some(Given(p, f)) <==> Settled(r, f, Given(p, f))
    {
      FieldFixed(r, f, Given(p, f));
    }
    var q := ReadItem(r, EncodeItem(p));
    if SettledItem(r, p) {
      assert q.Some?;
      SameItem(p, q.value);
    }
  }

  lemma {:induction false} SameItem(p: Item, q: Item)
    requires forall f: FieldName :: Some(Given(p, f)) == Some(Given(q, f))
    ensures p == q
  {
    assert Some(Given(p, Title)) == Some(Given(q, Title)) && Some(Given(p, ImageUrl)) == Some(Given(q, ImageUrl));
    assert Some(Given(p, FeedUrl)) == Some(Given(q, FeedUrl)) && Some(Given(p, ActualUrl)) == Some(Given(q, ActualUrl));
    assert Some(Given(p, PublishDate)) == Some(Given(q, PublishDate));
  }

  lemma {:induction false} ReadAppend(r: Rules, vs: seq<Value>, v: Value)
    ensures ReadAll(r, vs + [v])
         == if ReadAll(r, vs).Some? && ReadItem(r, v).Some? then Some(ReadAll(r, vs).value + [ReadItem(r, v).value]) else None
  {
    assert (vs + [v])[..|vs|] == vs;
  }

  lemma {:induction false} SettledAppend(r: Rules, ps: seq<Item>, p: Item)
    ensures SettledAll(r, ps + [p]) <==> SettledAll(r, ps) && SettledItem(r, p)
  {
    var all := ps + [p];
    assert all[|ps|] == p;
    assert forall k :: 0 <= k < |ps| ==> all[k] == ps[k];
  }

  lemma {:induction false} SameAppend(a: seq<Item>, x: Item, b: seq<Item>, y: Item)
    ensures a + [x] == b + [y] <==> a == b && x == y
  {
    if a + [x] == b + [y] {
      assert a == (a + [x])[..|a|] && b == (b + [y])[..|b|];
      assert x == (a + [x])[|a|] && y == (b + [y])[|b|];
    }
  }

  lemma {:induction false} SameJoin(a: Option<seq<Item>>, x: Option<Item>, init: seq<Item>, last: Item)
    ensures (if a.Some? && x.Some? then Some(a.value + [x.value]) else None) == Some(init + [last]) <==> a == Some(init) && x == Some(last)
  {
    if a.Some? && x.Some? {
      SameAppend(a.value, x.value, init, last);
    }
  }

  lemma {:induction false} RoundTripStep(r: Rules, init: seq<Item>, last: Item)
    ensures ReadAll(r, EncodeAll(init + [last])) == Some(init + [last]) <==>
            ReadAll(r, EncodeAll(init)) == Some(init) && ReadItem(r, EncodeItem(last)) == Some(last)
  {
    assert EncodeAll(init + [last]) == EncodeAll(init) + [EncodeItem(last)];
    ReadAppend(r, EncodeAll(init), EncodeItem(last));
    SameJoin(ReadAll(r, EncodeAll(init)), ReadItem(r, EncodeItem(last)), init, last);
  }

  lemma {:induction false} AllRoundTrip(r: Rules, ps: seq<Item>)
    ensures ReadAll(r, EncodeAll(ps)) == Some(ps) <==> SettledAll(r, ps)
  {
    if ps != [] {
      var init, last := ps[..|ps| - 1], ps[|ps| - 1];
      assert ps == init + [last];
      AllRoundTrip(r, init);
      ItemRoundTrip(r, last);
      RoundTripStep(r, init, last);
      SettledAppend(r, init, last);
    }
  }

  /** Every accepted payload has 1 to 1000 items and settled texts only. */
  lemma {:induction false} Accepted(r: Rules, v: Value)
    requires Decode(r, v).Some?
    ensures 1 <= |Decode(r, v).value| <= 1000 && SettledAll(r, Decode(r, v).value)
  {
    var ps := Decode(r, v).value;
    if ReadWrapper(r, v).Some? {
      var inner := if v.Obj? then v.members[0].1 else v.elements[0];
      ReadSettles(r, inner.elements);
    } else if ReadItems(r, v).Some? {
      ReadSettles(r, v.elements);
    } else {
      ItemSettles(r, v);
    }
  }

  lemma {:induction false} ItemSettles(r: Rules, v: Value)
    requires ReadItem(r, v).Some?
    ensures SettledItem(r, ReadItem(r, v).value)
  {
    var p := ReadItem(r, v).value;
    forall f: FieldName
      ensures Settled(r, f, Given(p, f))
    {
      assert ReadField(r, f, FieldValue(v, f)) == Some(Given(p, f));
      FieldSettles(r, f, FieldValue(v, f));
    }
  }

  lemma {:induction false} ReadSettles(r: Rules, vs: seq<Value>)
    requires ReadAll(r, vs).Some?
    ensures SettledAll(r, ReadAll(r, vs).value)
  {
    forall k | 0 <= k < |vs|
      ensures SettledItem(r, ReadAll(r, vs).value[k])
    {
      ItemSettles(r, vs[k]);
    }
  }

  /** Written in the wrapper form and read again, a list comes back exactly when
      it is one that reading can produce. */
  lemma {:induction false} RoundTrip(r: Rules, ps: seq<Item>)
    ensures Decode(r, Encode(ps)) == Some(ps) <==> 1 <= |ps| <= 1000 && SettledAll(r, ps)
  {
    var v := Encode(ps);
    AllRoundTrip(r, ps);
    if Decode(r, v) == Some(ps) {
      Accepted(r, v);
    }
    assert ReadWrapper(r, v) == ReadAll(r, EncodeAll(ps));
  }

  /** Normalising twice is normalising once. */
  lemma {:induction false} DecodeIdempotent(r: Rules, v: Value)
    requires Decode(r, v).Some?
    ensures Decode(r, Encode(Decode(r, v).value)) == Decode(r, v)
  {
    Accepted(r, v);
    RoundTrip(r, Decode(r, v).value);
  }

  /** An array of objects means the same bare and wrapped. */
  lemma {:induction false} BatchIsWrapper(r: Rules, vs: seq<Value>)
    requires forall k :: 0 <= k < |vs| ==> vs[k].Obj?
    ensures Decode(r, Arr(vs)) == Decode(r, Obj([("items", Arr(vs))]))
  {
    var wrapped := Obj([("items", Arr(vs))]);
    NoItemsField(wrapped.members);
    assert ReadItem(r, wrapped).None?;
    if vs != [] {
      assert FieldValue(Arr(vs), Title) == vs[0];
      assert ReadField(r, Title, FieldValue(Arr(vs), Title)).None?;
      assert ReadItem(r, Arr(vs)).None?;
    }
  }

  /** An object means the same alone and in an array, unless it is a wrapper. */
  lemma {:induction false} SingleIsBatch(r: Rules, members: seq<(string, Value)>)
    ensures Decode(r, Obj(members)) == Decode(r, Arr([Obj(members)])) <==> ReadWrapper(r, Obj(members)).None? || Decode(r, Obj(members)).None?
  {
    var v := Obj(members);
    var batch := Arr([v]);
    assert ReadWrapper(r, batch).None?;
    assert FieldValue(batch, Title) == v;
    assert ReadField(r, Title, FieldValue(batch, Title)).None?;
    assert ReadItem(r, batch).None?;
    OneRead(r, v);
    if ReadWrapper(r, v).Some? {
      NoItemsField(members);
    }
  }

  lemma {:induction false} OneRead(r: Rules, v: Value)
    ensures ReadAll(r, [v]) == if ReadItem(r, v).Some? then Some([ReadItem(r, v).value]) else None
  {
    var none: seq<Value> := [];
    var noItems: seq<Item> := [];
    assert none + [v] == [v];
    ReadAppend(r, none, v);
    if ReadItem(r, v).Some? {
      assert noItems + [ReadItem(r, v).value] == [ReadItem(r, v).value];
    }
  }

  /** `items` is no field of an item. */
  lemma {:induction false} NoItemsField(members: seq<(string, Value)>)
    requires |members| == 1 && members[0].0 == "items"
    ensures !ItemShape(Obj(members))
  {
    forall f: FieldName
      ensures KeyOf(f) != "items"
    {
      assert |KeyOf(Title)| == 5 && KeyOf(Title)[0] == 't' && "items"[0] == 'i';
      assert |KeyOf(ImageUrl)| == 9 && |KeyOf(FeedUrl)| == 8 && |KeyOf(ActualUrl)| == 10 && |KeyOf(PublishDate)| == 12;
    }
  }
}
