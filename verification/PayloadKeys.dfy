/** The payload as clients write it: member by member, under its literal key. */
module PayloadKeys {
  import opened Feed
  import opened Payload

  // -------------------------------------------------------------------- texts

  /** `t` is `s` without the white space around it. */
  ghost predicate Inner(r: Rules, s: string, t: string) {
    exists i, j :: InnerAt(r, s, i, j) && t == s[i..j]
  }

  /** White space ends at `i` and begins at `j`. */
  ghost predicate InnerAt(r: Rules, s: string, i: int, j: int) {
    && 0 <= i <= j <= |s|
    && (forall k :: 0 <= k < i ==> r.isSpace(s[k]))
    && (forall k :: j <= k < |s| ==> r.isSpace(s[k]))
    && (i < j ==> !r.isSpace(s[i]) && !r.isSpace(s[j - 1]))
  }

  lemma {:induction false} InnerAfter(r: Rules, s: string, i: nat, j: nat)
    requires s != "" && r.isSpace(s[0]) && InnerAt(r, s[1..], i, j)
    ensures InnerAt(r, s, i + 1, j + 1) && s[1..][i..j] == s[i + 1..j + 1]
  {
    var tail := s[1..];
    assert forall k :: 1 <= k < |s| ==> s[k] == tail[k - 1];
  }

  lemma {:induction false} InnerBefore(r: Rules, s: string, i: nat, j: nat)
    requires s != "" && r.isSpace(s[|s| - 1]) && InnerAt(r, s[..|s| - 1], i, j)
    ensures InnerAt(r, s, i, j) && s[..|s| - 1][i..j] == s[i..j]
  {
    var init := s[..|s| - 1];
    assert forall k :: 0 <= k < |init| ==> s[k] == init[k];
  }

  lemma {:induction false} StrippedInner(r: Rules, s: string) returns (i: nat, j: nat)
    ensures InnerAt(r, s, i, j) && Stripped(r, s) == s[i..j]
  {
    if s == "" {
      i, j := 0, 0;
    } else if r.isSpace(s[0]) {
      i, j := StrippedInner(r, s[1..]);
      InnerAfter(r, s, i, j);
      i, j := i + 1, j + 1;
    } else if r.isSpace(s[|s| - 1]) {
      i, j := StrippedInner(r, s[..|s| - 1]);
      InnerBefore(r, s, i, j);
    } else {
      i, j := 0, |s|;
    }
  }

  lemma {:induction false} InnerUnique(r: Rules, s: string, t: string)
    ensures Inner(r, s, t) <==> t == Stripped(r, s)
  {
    var i, j := StrippedInner(r, s);
    if Inner(r, s, t) {
      var a, b :| InnerAt(r, s, a, b) && t == s[a..b];
      if i < j && a < b {
        assert a == i && b == j;
      }
    }
  }

  /** What a text must be under each key. */
  ghost predicate GoodText(r: Rules, key: string, t: string) {
    && t != ""
    && (key == "title" ==> Bytes(r, t) <= 255)
    && (key in {"image_url", "feed_url", "actual_url"} ==> Bytes(r, t) <= 2048 && ("http://" <= t || "https://" <= t))
    && (key == "publish_date" ==> Bytes(r, t) <= 50 && r.isDate(t))
  }

  /** A text is as long as its characters together. */
  lemma {:induction false} BytesAdd(r: Rules, s: string, t: string, c: char)
    ensures Bytes(r, "") == 0 && Bytes(r, [c]) == r.bytes(c) && Bytes(r, s + t) == Bytes(r, s) + Bytes(r, t)
  {
    assert [c][1..] == "";
    if s == "" {
      assert s + t == t;
    } else {
      assert (s + t)[1..] == s[1..] + t;
      BytesAdd(r, s[1..], t, c);
    }
  }

  // ------------------------------------------------------------------ members

  /** A member that an item may have: null, or a text that is good for its key. */
  ghost predicate GoodMember(r: Rules, member: (string, Value)) {
    && member.0 in {"title", "image_url", "feed_url", "actual_url", "publish_date"}
    && (member.1.Null? || (member.1.Str? && exists t :: Inner(r, member.1.s, t) && GoodText(r, member.0, t)))
  }

  ghost predicate GoodMembers(r: Rules, members: seq<(string, Value)>) {
    && (forall i, j :: 0 <= i < j < |members| ==> members[i].0 != members[j].0)
    && (forall k :: 0 <= k < |members| ==> GoodMember(r, members[k]))
  }

  /** The field holds the text that stands under the key, without the white space
      around it, and nothing when there is none or null. */
  ghost predicate Carries(r: Rules, members: seq<(string, Value)>, key: string, field: Option<string>) {
    match field
    case Some(t) => exists k :: 0 <= k < |members| && members[k].0 == key && members[k].1.Str? && Inner(r, members[k].1.s, t)
    case None => forall k :: 0 <= k < |members| && members[k].0 == key ==> members[k].1.Null?
  }

  ghost predicate CarriesAll(r: Rules, members: seq<(string, Value)>, p: Item) {
    && Carries(r, members, "title", p.title)
    && Carries(r, members, "image_url", p.imageUrl)
    && Carries(r, members, "feed_url", p.feedUrl)
    && Carries(r, members, "actual_url", p.actualUrl)
    && Carries(r, members, "publish_date", p.publishDate)
  }

  lemma {:induction false} KeysAre(key: string)
    ensures IsKey(key) <==> key in {"title", "image_url", "feed_url", "actual_url", "publish_date"}
  {
    assert KeyOf(Title) == "title" && KeyOf(ImageUrl) == "image_url" && KeyOf(FeedUrl) == "feed_url";
    assert KeyOf(ActualUrl) == "actual_url" && KeyOf(PublishDate) == "publish_date";
  }

  lemma {:induction false} KeyIsOne(f: FieldName)
    ensures KeyOf(f) in {"title", "image_url", "feed_url", "actual_url", "publish_date"}
  {
    KeysAre(KeyOf(f));
  }

  lemma {:induction false} TextReads(r: Rules, f: FieldName, s: string)
    ensures ReadField(r, f, Str(s)).Some? <==> exists t :: Inner(r, s, t) && GoodText(r, KeyOf(f), t)
    ensures ReadField(r, f, Str(s)).Some? ==> ReadField(r, f, Str(s)).value == Some(Stripped(r, s)) && Inner(r, s, Stripped(r, s))
  {
    InnerUnique(r, s, Stripped(r, s));
    GoodIsAccepted(r, f, Stripped(r, s));
    if t :| Inner(r, s, t) && GoodText(r, KeyOf(f), t) {
      InnerUnique(r, s, t);
    }
  }

  lemma {:induction false} FieldReads(r: Rules, f: FieldName, v: Value)
    ensures ReadField(r, f, v).Some? <==> GoodMember(r, (KeyOf(f), v))
    ensures ReadField(r, f, v).Some? ==>
      if v.Null? then ReadField(r, f, v).value.None?
      else v.Str? && ReadField(r, f, v).value.Some? && Inner(r, v.s, ReadField(r, f, v).value.value)
  {
    KeyIsOne(f);
    if v.Str? {
      TextReads(r, f, v.s);
    }
  }

  lemma {:induction false} GoodIsAccepted(r: Rules, f: FieldName, t: string)
    ensures GoodText(r, KeyOf(f), t) <==> t != "" && Bytes(r, t) <= MaxLen(f) && Accepts(r, f, t)
  {
    match f {
      case Title => assert KeyOf(f) == "title" && "title" !in {"image_url", "feed_url", "actual_url", "publish_date"};
      case ImageUrl => assert KeyOf(f) == "image_url" && "image_url" !in {"title", "publish_date"};
      case FeedUrl => assert KeyOf(f) == "feed_url" && "feed_url" !in {"title", "publish_date"};
      case ActualUrl => assert KeyOf(f) == "actual_url" && "actual_url" !in {"title", "publish_date"};
      case PublishDate => assert KeyOf(f) == "publish_date" && "publish_date" !in {"title", "image_url", "feed_url", "actual_url"};
    }
  }

  lemma {:induction false} MemberIs(members: seq<(string, Value)>, key: string)
    requires NoneTwice(members)
    ensures forall k :: 0 <= k < |members| && members[k].0 == key ==> Member(members, key) == members[k].1
    ensures (forall k :: 0 <= k < |members| ==> members[k].0 != key) ==> Member(members, key) == Null
  {
    if members != [] {
      var tail := members[1..];
      assert forall k :: 1 <= k < |members| ==> members[k] == tail[k - 1];
      MemberIs(tail, key);
    }
  }

  lemma {:induction false} MemberCarried(r: Rules, members: seq<(string, Value)>, f: FieldName)
    requires NoneTwice(members) && ReadField(r, f, Member(members, KeyOf(f))).Some?
    ensures Carries(r, members, KeyOf(f), ReadField(r, f, Member(members, KeyOf(f))).value)
  {
    MemberIs(members, KeyOf(f));
    FieldReads(r, f, Member(members, KeyOf(f)));
  }

  lemma {:induction false} ItemReads(r: Rules, members: seq<(string, Value)>)
    ensures ReadItem(r, Obj(members)).Some? <==> GoodMembers(r, members)
    ensures ReadItem(r, Obj(members)).Some? ==> CarriesAll(r, members, ReadItem(r, Obj(members)).value)
  {
    var v := Obj(members);
    if ItemShape(v) {
      forall f: FieldName
        ensures ReadField(r, f, FieldValue(v, f)).Some? <==>
                forall k :: 0 <= k < |members| && members[k].0 == KeyOf(f) ==> GoodMember(r, members[k])
      {
        MemberIs(members, KeyOf(f));
        FieldReads(r, f, FieldValue(v, f));
        KeysAre(KeyOf(f));
        assert forall k :: 0 <= k < |members| && members[k].0 == KeyOf(f) ==> members[k] == (KeyOf(f), FieldValue(v, f));
      }
      ShapedReads(r, members);
    } else {
      if GoodMembers(r, members) {
        forall k | 0 <= k < |members|
          ensures IsKey(members[k].0)
        {
          KeysAre(members[k].0);
        }
      }
    }
  }

  lemma {:induction false} ShapedReads(r: Rules, members: seq<(string, Value)>)
    requires ItemShape(Obj(members))
    requires forall f: FieldName :: ReadField(r, f, FieldValue(Obj(members), f)).Some? <==>
               forall k :: 0 <= k < |members| && members[k].0 == KeyOf(f) ==> GoodMember(r, members[k])
    ensures ReadItem(r, Obj(members)).Some? <==> GoodMembers(r, members)
    ensures ReadItem(r, Obj(members)).Some? ==> CarriesAll(r, members, ReadItem(r, Obj(members)).value)
  {
    var v := Obj(members);
    if ReadItem(r, v).Some? {
      forall k | 0 <= k < |members|
        ensures GoodMember(r, members[k])
      {
        var f: FieldName :| KeyOf(f) == members[k].0;
        assert ReadField(r, f, FieldValue(v, f)).Some?;
      }
      var p := ReadItem(r, v).value;
      forall f: FieldName
        ensures Carries(r, members, KeyOf(f), Given(p, f))
      {
        EachCarried(r, members, p, f);
      }
      AllCarried(r, members, p);
    }
  }

  lemma {:induction false} EachCarried(r: Rules, members: seq<(string, Value)>, p: Item, f: FieldName)
    requires NoneTwice(members) && ReadItem(r, Obj(members)) == Some(p)
    ensures Carries(r, members, KeyOf(f), Given(p, f))
  {
    assert ReadField(r, f, FieldValue(Obj(members), f)) == Some(Given(p, f));
    MemberCarried(r, members, f);
  }

  lemma {:induction false} AllCarried(r: Rules, members: seq<(string, Value)>, p: Item)
    requires forall f: FieldName :: Carries(r, members, KeyOf(f), Given(p, f))
    ensures CarriesAll(r, members, p)
  {
    assert Carries(r, members, KeyOf(Title), Given(p, Title));
    assert Carries(r, members, KeyOf(ImageUrl), Given(p, ImageUrl));
    assert Carries(r, members, KeyOf(FeedUrl), Given(p, FeedUrl));
    assert Carries(r, members, KeyOf(ActualUrl), Given(p, ActualUrl));
    assert Carries(r, members, KeyOf(PublishDate), Given(p, PublishDate));
  }

  // ----------------------------------------------------------------- payloads

  /** An object that is no wrapper is accepted exactly when no key comes twice and every
      member is good under its key, in any order and with any of them missing; it is
      then one item that carries each text in the field of its key. */
  lemma {:induction false} ObjectDecodes(r: Rules, members: seq<(string, Value)>)
    requires !(|members| == 1 && members[0].0 == "items")
    ensures Decode(r, Obj(members)).Some? <==> GoodMembers(r, members)
    ensures Decode(r, Obj(members)).Some? ==>
              |Decode(r, Obj(members)).value| == 1 && CarriesAll(r, members, Decode(r, Obj(members)).value[0])
  {
    ItemReads(r, members);
  }

  /** An array of objects is accepted exactly when it has 1 to 1000 of them and each is
      good; items and objects correspond in order. */
  lemma {:induction false} BatchDecodes(r: Rules, vs: seq<Value>)
    requires forall k :: 0 <= k < |vs| ==> vs[k].Obj?
    ensures Decode(r, Arr(vs)).Some? <==> 1 <= |vs| <= 1000 && forall k :: 0 <= k < |vs| ==> GoodMembers(r, vs[k].members)
    ensures Decode(r, Arr(vs)).Some? ==>
      && |Decode(r, Arr(vs)).value| == |vs|
      && forall k :: 0 <= k < |vs| ==> CarriesAll(r, vs[k].members, Decode(r, Arr(vs)).value[k])
  {
    forall k | 0 <= k < |vs|
      ensures ReadItem(r, vs[k]).Some? <==> GoodMembers(r, vs[k].members)
      ensures ReadItem(r, vs[k]).Some? ==> CarriesAll(r, vs[k].members, ReadItem(r, vs[k]).value)
    {
      ItemReads(r, vs[k].members);
    }
    AllOrNone(r, vs);
    NoPositions(r, vs);
  }

  lemma {:induction false} AllOrNone(r: Rules, vs: seq<Value>)
    ensures ReadAll(r, vs).Some? <==> forall k :: 0 <= k < |vs| ==> ReadItem(r, vs[k]).Some?
  {
    if vs != [] {
      var init := vs[..|vs| - 1];
      AllOrNone(r, init);
      assert forall k :: 0 <= k < |init| ==> init[k] == vs[k];
    }
  }

  /** An array of objects is neither a wrapper nor an item written by position. */
  lemma {:induction false} NoPositions(r: Rules, vs: seq<Value>)
    requires forall k :: 0 <= k < |vs| ==> vs[k].Obj?
    ensures ReadWrapper(r, Arr(vs)).None? && (vs != [] ==> ReadItem(r, Arr(vs)).None?)
  {
    if vs != [] {
      assert FieldValue(Arr(vs), Title) == vs[0];
      assert ReadField(r, Title, FieldValue(Arr(vs), Title)).None?;
    }
  }

  /** The wrapper means the array that it wraps. */
  lemma {:induction false} WrapperDecodes(r: Rules, vs: seq<Value>)
    requires forall k :: 0 <= k < |vs| ==> vs[k].Obj?
    ensures Decode(r, Obj([("items", Arr(vs))])) == Decode(r, Arr(vs))
  {
    BatchIsWrapper(r, vs);
  }

  /** The array in an array of one is the array: the wrapper too may be written by
      position. */
  lemma {:induction false} NestedDecodes(r: Rules, vs: seq<Value>)
    requires forall k :: 0 <= k < |vs| ==> vs[k].Obj?
    ensures Decode(r, Arr([Arr(vs)])) == Decode(r, Arr(vs))
  {
    var nested := Arr([Arr(vs)]);
    NoPositions(r, vs);
    assert FieldValue(nested, Title) == Arr(vs);
    assert ReadField(r, Title, FieldValue(nested, Title)).None?;
    OneRead(r, Arr(vs));
  }

  /** An array of up to five texts and nulls is an item written by position, in the order
      of the declaration; the rest is missing. */
  lemma {:induction false} PositionsDecode(r: Rules, members: seq<(string, Value)>, vs: seq<Value>)
    requires 1 <= |members| == |vs| <= 5 && forall k :: 0 <= k < |vs| ==> members[k].1 == vs[k] && !vs[k].Arr? && !vs[k].Obj?
    requires members[0].0 == "title" && (|vs| > 1 ==> members[1].0 == "image_url") && (|vs| > 2 ==> members[2].0 == "feed_url")
    requires (|vs| > 3 ==> members[3].0 == "actual_url") && (|vs| > 4 ==> members[4].0 == "publish_date")
    ensures Decode(r, Arr(vs)) == Decode(r, Obj(members))
  {
    LiteralPositions(members, vs);
    SamePositions(r, members, vs);
    AllOrNone(r, vs);
    assert ReadItem(r, vs[0]).None?;
  }

  /** More than five values are no item. */
  lemma {:induction false} SixPositions(r: Rules, vs: seq<Value>)
    requires |vs| > 5 && forall k :: 0 <= k < |vs| ==> !vs[k].Arr? && !vs[k].Obj?
    ensures Decode(r, Arr(vs)) == None
  {
    AllOrNone(r, vs);
    assert ReadItem(r, vs[0]).None?;
  }

  lemma {:induction false} LiteralPositions(members: seq<(string, Value)>, vs: seq<Value>)
    requires 1 <= |members| == |vs| <= 5 && forall k :: 0 <= k < |vs| ==> members[k].1 == vs[k]
    requires members[0].0 == "title" && (|vs| > 1 ==> members[1].0 == "image_url") && (|vs| > 2 ==> members[2].0 == "feed_url")
    requires (|vs| > 3 ==> members[3].0 == "actual_url") && (|vs| > 4 ==> members[4].0 == "publish_date")
    ensures forall f: FieldName :: Position(f) < |vs| ==> members[Position(f)] == (KeyOf(f), vs[Position(f)])
    ensures ItemShape(Obj(members))
  {
    forall f: FieldName | Position(f) < |vs|
      ensures members[Position(f)] == (KeyOf(f), vs[Position(f)])
    {
      assert members[Position(f)].1 == vs[Position(f)];
    }
    forall i, j | 0 <= i < j < |vs|
      ensures members[i].0 != members[j].0
    {
      assert members[Position(FieldAt(i))].0 == KeyOf(FieldAt(i)) && members[Position(FieldAt(j))].0 == KeyOf(FieldAt(j));
      KeysApart(FieldAt(i), FieldAt(j));
    }
    forall k | 0 <= k < |vs|
      ensures IsKey(members[k].0)
    {
      assert KeyOf(FieldAt(k)) == members[Position(FieldAt(k))].0;
    }
  }

  lemma {:induction false} SamePositions(r: Rules, members: seq<(string, Value)>, vs: seq<Value>)
    requires |members| == |vs| <= 5 && forall f: FieldName :: Position(f) < |vs| ==> members[Position(f)] == (KeyOf(f), vs[Position(f)])
    requires ItemShape(Obj(members))
    ensures ReadItem(r, Arr(vs)) == ReadItem(r, Obj(members))
  {
    forall f: FieldName
      ensures FieldValue(Arr(vs), f) == FieldValue(Obj(members), f)
    {
      MemberIs(members, KeyOf(f));
      if Position(f) < |vs| {
        assert members[Position(f)].0 == KeyOf(f);
      } else {
        forall k | 0 <= k < |members|
          ensures members[k].0 != KeyOf(f)
        {
          assert members[Position(FieldAt(k))].0 == KeyOf(FieldAt(k));
          KeysApart(FieldAt(k), f);
        }
      }
    }
    SameFields(r, Arr(vs), Obj(members));
  }

  lemma {:induction false} SameFields(r: Rules, v: Value, w: Value)
    requires ItemShape(v) && ItemShape(w) && forall f: FieldName :: FieldValue(v, f) == FieldValue(w, f)
    ensures ReadItem(r, v) == ReadItem(r, w)
  {
    assert FieldValue(v, Title) == FieldValue(w, Title) && FieldValue(v, ImageUrl) == FieldValue(w, ImageUrl);
    assert FieldValue(v, FeedUrl) == FieldValue(w, FeedUrl) && FieldValue(v, ActualUrl) == FieldValue(w, ActualUrl);
    assert FieldValue(v, PublishDate) == FieldValue(w, PublishDate);
  }
}
