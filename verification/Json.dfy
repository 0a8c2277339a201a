/** The texts that are hashed into entity tags: the serialised extract parameters
    and response bodies. Both can be read back, so that distinct parameters and
    distinct results give distinct texts. */
module Json {
  import opened Feed

  datatype SortOrder = Asc | Desc

  /** The normalised query parameters of a GET. */
  datatype ExtractParams = ExtractParams(
    title: Option<string>,
    imageUrl: Option<string>,
    feedUrl: Option<string>,
    actualUrl: Option<string>,
    limit: Option<nat>,
    sort: Option<SortOrder>)

  // ---------------------------------------------------------------- decimals

  function DigitChar(n: nat): (c: char)
    requires n < 10
    ensures '0' <= c <= '9'
  {
    (n + 48) as char
  }

  predicate IsDigit(c: char) {
    '0' <= c <= '9'
  }

  /** The decimal print of a number. */
  function Decimal(n: nat): (s: string)
    ensures s != "" && forall k :: 0 <= k < |s| ==> IsDigit(s[k])
  {
    if n < 10 then [DigitChar(n)] else Decimal(n / 10) + [DigitChar(n % 10)]
  }

  function DigitValue(c: char): nat
    requires IsDigit(c)
  {
    c as int - 48
  }

  /** The number that a text of digits denotes. */
  function Numeral(s: string): nat
    requires forall k :: 0 <= k < |s| ==> IsDigit(s[k])
  {
    if s == "" then 0 else Numeral(s[..|s| - 1]) * 10 + DigitValue(s[|s| - 1])
  }

  lemma {:induction false} NumeralOfDecimal(n: nat)
    ensures Numeral(Decimal(n)) == n
  {
    if n >= 10 {
      NumeralOfDecimal(n / 10);
      assert Decimal(n)[..|Decimal(n)| - 1] == Decimal(n / 10);
    } else {
      assert Decimal(n)[..0] == "";
    }
  }

  /** A number followed by something else than a digit is read unambiguously. */
  lemma {:induction false} DecimalPrefix(m: nat, n: nat, x: string, y: string)
    requires x != "" && !IsDigit(x[0]) && y != "" && !IsDigit(y[0])
    requires Decimal(m) + x == Decimal(n) + y
    ensures m == n && x == y
  {
    var a, b := Decimal(m), Decimal(n);
    NotLonger(a, x, b, y);
    NotLonger(b, y, a, x);
    assert a == (a + x)[..|a|] && b == (b + y)[..|b|];
    assert x == (a + x)[|a|..] && y == (b + y)[|b|..];
    NumeralOfDecimal(m);
    NumeralOfDecimal(n);
  }

  lemma {:induction false} NotLonger(a: string, x: string, b: string, y: string)
    requires x != "" && !IsDigit(x[0]) && a + x == b + y
    requires forall k :: 0 <= k < |b| ==> IsDigit(b[k])
    ensures |b| <= |a|
  {
    assert (a + x)[|a|] == x[0];
    assert forall k :: 0 <= k < |b| ==> (b + y)[k] == b[k];
  }

  /** One digit prints as itself, and a longer number digit by digit. */
  lemma {:induction false} DecimalReads(m: nat, n: nat)
    requires n < 10
    ensures Decimal(n) == ["0123456789"[n]]
    ensures m > 0 ==> Decimal(10 * m + n) == Decimal(m) + ["0123456789"[n]]
  {
    assert "0123456789"[n] == DigitChar(n);
    assert m > 0 ==> (10 * m + n) / 10 == m && (10 * m + n) % 10 == n;
  }

  // ----------------------------------------------------------------- strings

  function HexChar(n: nat): char
    requires n < 16
  {
    if n < 10 then (n + 48) as char else (n + 87) as char
  }

  /** The JSON escape of one character. */
  function EscapeChar(c: char): string {
    if c == '"' then "\\\""
    else if c == '\\' then "\\\\"
    else if c == 8 as char then "\\b"
    else if c == 12 as char then "\\f"
    else if c == '\n' then "\\n"
    else if c == '\r' then "\\r"
    else if c == '\t' then "\\t"
    else if c < ' ' then "\\u00" + [HexChar(c as nat / 16), HexChar(c as nat % 16)]
    else [c]
  }

  function Escape(s: string): string {
    if s == "" then "" else EscapeChar(s[0]) + Escape(s[1..])
  }

  function Quote(s: string): string {
    "\"" + Escape(s) + "\""
  }

  /** A text stands between quotes, its characters escaped one by one. */
  lemma {:induction false} QuoteReads(c: char, s: string)
    ensures Quote("") == "\"\"" && Quote([c] + s) == ("\"" + EscapeChar(c)) + Quote(s)[1..]
  {
    assert ([c] + s)[1..] == s;
    assert Quote(s)[1..] == Escape(s) + "\"";
  }

  /** Escapes stand for quotes, backslashes and control characters, and nothing else. */
  lemma {:induction false} EscapesRead(c: char)
    ensures c >= ' ' && c != '"' && c != '\\' ==> EscapeChar(c) == [c]
    ensures EscapeChar('"') == ['\\', '"'] && EscapeChar('\\') == ['\\', '\\']
    ensures EscapeChar(8 as char) == ['\\', 'b'] && EscapeChar(12 as char) == ['\\', 'f']
    ensures EscapeChar('\n') == ['\\', 'n'] && EscapeChar('\r') == ['\\', 'r'] && EscapeChar('\t') == ['\\', 't']
    ensures c < ' ' && c !in {8 as char, 12 as char, '\n', '\r', '\t'} ==>
              EscapeChar(c) == "\\u00" + ["0123456789abcdef"[c as nat / 16], "0123456789abcdef"[c as nat % 16]]
  {
    if c < ' ' {
      HexReads(c as nat / 16);
      HexReads(c as nat % 16);
    }
  }

  lemma {:induction false} HexReads(n: nat)
    requires n < 16
    ensures "0123456789abcdef"[n] == HexChar(n)
  {
  }

  lemma {:induction false} EscapeCharPrefix(c: char, d: char, x: string, y: string)
    requires EscapeChar(c) + x == EscapeChar(d) + y
    ensures c == d && x == y
  {
    var a, b := EscapeChar(c) + x, EscapeChar(d) + y;
    assert a[0] == EscapeChar(c)[0] && b[0] == EscapeChar(d)[0];
    if |EscapeChar(c)| > 1 {
      assert a[1] == EscapeChar(c)[1] && b[1] == EscapeChar(d)[1];
    }
    if |EscapeChar(c)| == 6 {
      assert a[4] == EscapeChar(c)[4] && a[5] == EscapeChar(c)[5];
      assert b[4] == EscapeChar(d)[4] && b[5] == EscapeChar(d)[5];
    }
    assert x == a[|EscapeChar(c)|..] && y == b[|EscapeChar(d)|..];
  }

  /** The escaped text, its closing quote and what follows. */
  function Closing(s: string, x: string): string {
    Escape(s) + ("\"" + x)
  }

  lemma {:induction false} ClosingStep(s: string, x: string)
    ensures s == "" ==> Closing(s, x) == "\"" + x
    ensures s != "" ==> Closing(s, x) == EscapeChar(s[0]) + Closing(s[1..], x) && Closing(s, x)[0] != '"'
  {
  }

  lemma {:induction false} EscapePrefix(s: string, t: string, x: string, y: string)
    requires Closing(s, x) == Closing(t, y)
    ensures s == t && x == y
  {
    ClosingStep(s, x);
    ClosingStep(t, y);
    if s == "" {
      Strip("\"", x, y);
    } else {
      EscapeCharPrefix(s[0], t[0], Closing(s[1..], x), Closing(t[1..], y));
      EscapePrefix(s[1..], t[1..], x, y);
    }
  }

  lemma {:induction false} QuotePrefix(s: string, t: string, x: string, y: string)
    requires Quote(s) + x == Quote(t) + y
    ensures s == t && x == y
  {
    assert Quote(s) + x == "\"" + Closing(s, x);
    assert Quote(t) + y == "\"" + Closing(t, y);
    Strip("\"", Closing(s, x), Closing(t, y));
    EscapePrefix(s, t, x, y);
  }

  // ------------------------------------------------------------------ fields

  function OptionalText(o: Option<string>): string {
    if o.None? then "null" else Quote(o.value)
  }

  function OptionalNumber(o: Option<nat>): string {
    if o.None? then "null" else Decimal(o.value)
  }

  function OptionalSort(o: Option<SortOrder>): string {
    match o
    case None => "null"
    case Some(Asc) => "\"asc\""
    case Some(Desc) => "\"desc\""
  }

  lemma {:induction false} TextPrefix(a: Option<string>, b: Option<string>, x: string, y: string)
    requires OptionalText(a) + x == OptionalText(b) + y
    ensures a == b && x == y
  {
    assert (OptionalText(a) + x)[0] == OptionalText(a)[0] && (OptionalText(b) + y)[0] == OptionalText(b)[0];
    if a.Some? {
      QuotePrefix(a.value, b.value, x, y);
    } else {
      Strip("null", x, y);
    }
  }

  lemma {:induction false} NumberPrefix(a: Option<nat>, b: Option<nat>, x: string, y: string)
    requires x != "" && !IsDigit(x[0]) && y != "" && !IsDigit(y[0])
    requires OptionalNumber(a) + x == OptionalNumber(b) + y
    ensures a == b && x == y
  {
    assert (OptionalNumber(a) + x)[0] == OptionalNumber(a)[0] && (OptionalNumber(b) + y)[0] == OptionalNumber(b)[0];
    if a.Some? {
      DecimalPrefix(a.value, b.value, x, y);
    } else {
      Strip("null", x, y);
    }
  }

  lemma {:induction false} Strip(p: string, x: string, y: string)
    requires p + x == p + y
    ensures x == y
  {
    assert x == (p + x)[|p|..] && y == (p + y)[|p|..];
  }

  lemma {:induction false} SortUnique(a: Option<SortOrder>, b: Option<SortOrder>)
    requires OptionalSort(a) + "}" == OptionalSort(b) + "}"
    ensures a == b
  {
    assert |OptionalSort(a) + "}"| == |OptionalSort(b) + "}"|;
  }

  // -------------------------------------------------------------- parameters

  function SortField(p: ExtractParams): string {
    ",\"sort\":" + (OptionalSort(p.sort) + "}")
  }

  function LimitField(p: ExtractParams): string {
    ",\"limit\":" + (OptionalNumber(p.limit) + SortField(p))
  }

  function ActualField(p: ExtractParams): string {
    ",\"actual_url\":" + (OptionalText(p.actualUrl) + LimitField(p))
  }

  function FeedField(p: ExtractParams): string {
    ",\"feed_url\":" + (OptionalText(p.feedUrl) + ActualField(p))
  }

  function ImageField(p: ExtractParams): string {
    ",\"image_url\":" + (OptionalText(p.imageUrl) + FeedField(p))
  }

  /** `serde_json::to_string(&params)` */
  function ParamsText(p: ExtractParams): string {
    "{\"title\":" + (OptionalText(p.title) + ImageField(p))
  }

  /** Distinct parameters serialise to distinct texts. */
  lemma {:induction false} ParamsUnique(p: ExtractParams, q: ExtractParams)
    requires ParamsText(p) == ParamsText(q)
    ensures p == q
  {
    Strip("{\"title\":", OptionalText(p.title) + ImageField(p), OptionalText(q.title) + ImageField(q));
    TextPrefix(p.title, q.title, ImageField(p), ImageField(q));
    Strip(",\"image_url\":", OptionalText(p.imageUrl) + FeedField(p), OptionalText(q.imageUrl) + FeedField(q));
    TextPrefix(p.imageUrl, q.imageUrl, FeedField(p), FeedField(q));
    Strip(",\"feed_url\":", OptionalText(p.feedUrl) + ActualField(p), OptionalText(q.feedUrl) + ActualField(q));
    TextPrefix(p.feedUrl, q.feedUrl, ActualField(p), ActualField(q));
    Strip(",\"actual_url\":", OptionalText(p.actualUrl) + LimitField(p), OptionalText(q.actualUrl) + LimitField(q));
    TextPrefix(p.actualUrl, q.actualUrl, LimitField(p), LimitField(q));
    Strip(",\"limit\":", OptionalNumber(p.limit) + SortField(p), OptionalNumber(q.limit) + SortField(q));
    NumberPrefix(p.limit, q.limit, SortField(p), SortField(q));
    Strip(",\"sort\":", OptionalSort(p.sort) + "}", OptionalSort(q.sort) + "}");
    SortUnique(p.sort, q.sort);
  }

  // ------------------------------------------------------------------ bodies

  function DateMember(show: string -> string, r: Row): string {
    ",\"publish_date\":" + (Quote(show(r.publishDate)) + "}")
  }

  function ActualMember(show: string -> string, r: Row): string {
    ",\"actual_url\":" + (OptionalText(r.actualUrl) + DateMember(show, r))
  }

  function FeedMember(show: string -> string, r: Row): string {
    ",\"feed_url\":" + (Quote(r.feedUrl) + ActualMember(show, r))
  }

  function ImageMember(show: string -> string, r: Row): string {
    ",\"image_url\":" + (OptionalText(r.imageUrl) + FeedMember(show, r))
  }

  /** One element of `Result`; `show` renders the publish date. */
  function RowText(show: string -> string, r: Row): string {
    "{\"title\":" + (Quote(r.title) + ImageMember(show, r))
  }

  function RowsText(show: string -> string, rows: seq<Row>): string {
    if rows == [] then "" else if |rows| == 1 then RowText(show, rows[0])
    else RowText(show, rows[0]) + "," + RowsText(show, rows[1..])
  }

  const BODY_HEAD := "\"Status\":\"Success\",\"Code\":\"OK\",\"Message\":\"Processed request\",\"Count\":"

  /** The body of a successful GET. */
  function BodyText(show: string -> string, rows: seq<Row>): string {
    "{" + (BODY_HEAD + (Decimal(|rows|) + (",\"Result\":[" + RowsText(show, rows) + "]}")))
  }

  /** Bodies of different lengths of result are different. */
  lemma {:induction false} BodyTellsCount(show: string -> string, rows: seq<Row>, rows': seq<Row>)
    requires BodyText(show, rows) == BodyText(show, rows')
    ensures |rows| == |rows'|
  {
    var x, y := ",\"Result\":[" + RowsText(show, rows) + "]}", ",\"Result\":[" + RowsText(show, rows') + "]}";
    Strip("{", BODY_HEAD + (Decimal(|rows|) + x), BODY_HEAD + (Decimal(|rows'|) + y));
    Strip(BODY_HEAD, Decimal(|rows|) + x, Decimal(|rows'|) + y);
    DecimalPrefix(|rows|, |rows'|, x, y);
  }

  /** The columns that a client sees are those of the other row. */
  predicate ShowsAs(show: string -> string, r: Row, r': Row) {
    && r.title == r'.title && r.imageUrl == r'.imageUrl && r.feedUrl == r'.feedUrl && r.actualUrl == r'.actualUrl
    && show(r.publishDate) == show(r'.publishDate)
  }

  /** `Strip` and `QuotePrefix` where something follows in brackets. */
  lemma {:induction false} Member(name: string, v: string, v': string, x: string, y: string, z: string, w: string)
    requires name + (v + x) + z == name + (v' + y) + w
    ensures v + (x + z) == v' + (y + w)
  {
    assert name + (v + x) + z == name + (v + (x + z)) && name + (v' + y) + w == name + (v' + (y + w));
    Strip(name, v + (x + z), v' + (y + w));
  }

  lemma {:induction false} RowPrefix(show: string -> string, r: Row, r': Row, x: string, y: string)
    requires RowText(show, r) + x == RowText(show, r') + y
    ensures ShowsAs(show, r, r') && x == y
  {
    Member("{\"title\":", Quote(r.title), Quote(r'.title), ImageMember(show, r), ImageMember(show, r'), x, y);
    QuotePrefix(r.title, r'.title, ImageMember(show, r) + x, ImageMember(show, r') + y);
    Member(",\"image_url\":", OptionalText(r.imageUrl), OptionalText(r'.imageUrl), FeedMember(show, r), FeedMember(show, r'), x, y);
    TextPrefix(r.imageUrl, r'.imageUrl, FeedMember(show, r) + x, FeedMember(show, r') + y);
    Member(",\"feed_url\":", Quote(r.feedUrl), Quote(r'.feedUrl), ActualMember(show, r), ActualMember(show, r'), x, y);
    QuotePrefix(r.feedUrl, r'.feedUrl, ActualMember(show, r) + x, ActualMember(show, r') + y);
    Member(",\"actual_url\":", OptionalText(r.actualUrl), OptionalText(r'.actualUrl), DateMember(show, r), DateMember(show, r'), x, y);
    TextPrefix(r.actualUrl, r'.actualUrl, DateMember(show, r) + x, DateMember(show, r') + y);
    Member(",\"publish_date\":", Quote(show(r.publishDate)), Quote(show(r'.publishDate)), "}", "}", x, y);
    QuotePrefix(show(r.publishDate), show(r'.publishDate), "}" + x, "}" + y);
    Strip("}", x, y);
  }

  lemma {:induction false} RowsPrefix(show: string -> string, rows: seq<Row>, rows': seq<Row>, x: string, y: string)
    requires |rows| == |rows'| && RowsText(show, rows) + x == RowsText(show, rows') + y
    ensures forall k :: 0 <= k < |rows| ==> ShowsAs(show, rows[k], rows'[k])
    ensures x == y
  {
    if |rows| == 1 {
      RowPrefix(show, rows[0], rows'[0], x, y);
    } else if |rows| > 1 {
      var a, b := RowsText(show, rows[1..]), RowsText(show, rows'[1..]);
      RowsSplit(show, rows, x);
      RowsSplit(show, rows', y);
      RowPrefix(show, rows[0], rows'[0], "," + (a + x), "," + (b + y));
      Strip(",", a + x, b + y);
      RowsPrefix(show, rows[1..], rows'[1..], x, y);
    } else {
      assert rows == [] && rows' == [];
      assert "" + x == x && "" + y == y;
    }
  }

  lemma {:induction false} RowsSplit(show: string -> string, rows: seq<Row>, x: string)
    requires |rows| > 1
    ensures RowsText(show, rows) + x == RowText(show, rows[0]) + ("," + (RowsText(show, rows[1..]) + x))
  {
    ThreeParts(RowText(show, rows[0]), RowsText(show, rows[1..]), x);
  }

  lemma {:induction false} ThreeParts(a: string, b: string, x: string)
    ensures a + "," + b + x == a + ("," + (b + x))
  {
  }

  /** A body tells the whole result: every column of every row, in order. */
  lemma {:induction false} BodyUnique(show: string -> string, rows: seq<Row>, rows': seq<Row>)
    requires BodyText(show, rows) == BodyText(show, rows')
    ensures |rows| == |rows'| && forall k :: 0 <= k < |rows| ==> ShowsAs(show, rows[k], rows'[k])
  {
    BodyTellsCount(show, rows, rows');
    var n := Decimal(|rows|);
    var x, y := RowsText(show, rows), RowsText(show, rows');
    Strip("{", BODY_HEAD + (n + (",\"Result\":[" + x + "]}")), BODY_HEAD + (n + (",\"Result\":[" + y + "]}")));
    Strip(BODY_HEAD, n + (",\"Result\":[" + x + "]}"), n + (",\"Result\":[" + y + "]}"));
    Strip(n, ",\"Result\":[" + x + "]}", ",\"Result\":[" + y + "]}");
    assert ",\"Result\":[" + x + "]}" == ",\"Result\":[" + (x + "]}") && ",\"Result\":[" + y + "]}" == ",\"Result\":[" + (y + "]}");
    Strip(",\"Result\":[", x + "]}", y + "]}");
    RowsPrefix(show, rows, rows', "]}", "]}");
  }

  /** The members of an element, under their names. */
  lemma {:induction false} RowReads(show: string -> string, r: Row)
    ensures RowText(show, r)
         == "{\"title\":" + (Quote(r.title)
          + (",\"image_url\":" + ((if r.imageUrl.Some? then Quote(r.imageUrl.value) else "null")
          + (",\"feed_url\":" + (Quote(r.feedUrl)
          + (",\"actual_url\":" + ((if r.actualUrl.Some? then Quote(r.actualUrl.value) else "null")
          + (",\"publish_date\":" + (Quote(show(r.publishDate)) + "}")))))))))
  {
  }

  /** The members of the parameters, under their names. */
  lemma {:induction false} ParamsRead(p: ExtractParams)
    ensures ParamsText(p)
         == "{\"title\":" + ((if p.title.Some? then Quote(p.title.value) else "null")
          + (",\"image_url\":" + ((if p.imageUrl.Some? then Quote(p.imageUrl.value) else "null")
          + (",\"feed_url\":" + ((if p.feedUrl.Some? then Quote(p.feedUrl.value) else "null")
          + (",\"actual_url\":" + ((if p.actualUrl.Some? then Quote(p.actualUrl.value) else "null")
          + (",\"limit\":" + ((if p.limit.Some? then Decimal(p.limit.value) else "null")
          + (",\"sort\":" + ((if p.sort == Some(Asc) then "\"asc\"" else if p.sort == Some(Desc) then "\"desc\"" else "null") + "}")))))))))))
  {
  }

  /** The envelope of a body. */
  lemma {:induction false} BodyReads(show: string -> string, rows: seq<Row>)
    ensures BodyText(show, rows)
         == "{" + ("\"Status\":\"Success\",\"Code\":\"OK\",\"Message\":\"Processed request\",\"Count\":"
          + (Decimal(|rows|) + (",\"Result\":[" + RowsText(show, rows) + "]}")))
    ensures RowsText(show, []) == ""
    ensures |rows| == 1 ==> RowsText(show, rows) == RowText(show, rows[0])
    ensures |rows| > 1 ==> RowsText(show, rows) == RowText(show, rows[0]) + "," + RowsText(show, rows[1..])
  {
  }
}
