/** The path of the `limit` parameter: from the query string through the drivers'
    decimal print to the number that the procedures use. */
module Limit {
  import opened Feed
  import opened Bulk
  import opened Json
  import opened Sanitiser
  import E = Extract

  // ----------------------------------------------------------------- from_map

  predicate AllDigits(s: string) {
    s != "" && forall k :: 0 <= k < |s| ==> IsDigit(s[k])
  }

  /** `parse::<u32>()`: digits, after at most one plus sign, within 32 bits. */
  function ParseU32(s: string): Option<nat> {
    var t := if s != "" && s[0] == '+' then s[1..] else s;
    if AllDigits(t) && Numeral(t) < 0x1_0000_0000 then Some(Numeral(t)) else None
  }

  /** A missing limit, a text that is no number and a number beyond 32 bits are 25;
      every other number is moved into 1 to 100. */
  function FromMap(limit: Option<string>): (n: nat)
    ensures 1 <= n <= 100
  {
    var parsed := if limit.Some? then ParseU32(limit.value) else None;
    var n := if parsed.Some? then parsed.value else 25;
    if n < 1 then 1 else if n > 100 then 100 else n
  }

  /** A printed number is read back exactly when it has 32 bits. */
  lemma {:induction false} ParsePrinted(n: nat)
    ensures ParseU32(Decimal(n)) == if n < 0x1_0000_0000 then Some(n) else None
  {
    NumeralOfDecimal(n);
  }

  /** What a query string asks for: a printed number is moved into 1 to 100, or
      ignored beyond 32 bits; a plus sign in front makes no difference. */
  lemma {:induction false} FromMapReads(n: nat)
    ensures var limit := if n >= 0x1_0000_0000 then 25 else if n == 0 then 1 else if n > 100 then 100 else n;
            FromMap(Some(Decimal(n))) == limit && FromMap(Some("+" + Decimal(n))) == limit
    ensures FromMap(None) == 25
  {
    NumeralOfDecimal(n);
    assert ("+" + Decimal(n))[1..] == Decimal(n);
  }

  /** Some character is neither a digit nor a plus sign in front of digits. */
  predicate NoNumber(s: string) {
    s == "" || s == "+" || exists k :: 0 <= k < |s| && !IsDigit(s[k]) && (k > 0 || s[k] != '+')
  }

  /** The default is used exactly for what is no number or has more than 32 bits. */
  lemma {:induction false} ParseFails(s: string)
    ensures NoNumber(s) ==> ParseU32(s) == None && FromMap(Some(s)) == 25
    ensures !NoNumber(s) ==>
      var t := if s[0] == '+' then s[1..] else s;
      AllDigits(t) && ParseU32(s) == if Numeral(t) < 0x1_0000_0000 then Some(Numeral(t)) else None
  {
    if s != "" {
      var t := if s[0] == '+' then s[1..] else s;
      if k :| 0 <= k < |s| && !IsDigit(s[k]) && (k > 0 || s[k] != '+') {
        assert t[if s[0] == '+' then k - 1 else k] == s[k];
      }
      if !NoNumber(s) {
        forall k | 0 <= k < |t|
          ensures IsDigit(t[k])
        {
          assert t[k] == s[if s[0] == '+' then k + 1 else k];
        }
      }
    }
  }

  /** Normalising a limit is idempotent: printed and read again it is the same. */
  lemma {:induction false} FromMapIdempotent(limit: Option<string>)
    ensures FromMap(Some(Decimal(FromMap(limit)))) == FromMap(limit)
  {
    ParsePrinted(FromMap(limit));
  }

  // ----------------------------------------------------- the SQL digit filters

  predicate Numeric(c: char) {
    IsDigit(c) || c == '-'
  }

  /** `regexp_replace` without the global flag: only the first other character. */
  function FirstOmitted(s: string): string {
    if s == "" then "" else if !Numeric(s[0]) then " " + s[1..] else [s[0]] + FirstOmitted(s[1..])
  }

  /** MariaDB replaces them all. */
  function EachOmitted(s: string): (t: string)
    ensures |t| == |s| && forall k :: 0 <= k < |s| ==> t[k] == if Numeric(s[k]) then s[k] else ' '
  {
    seq(|s|, k requires 0 <= k < |s| => if Numeric(s[k]) then s[k] else ' ')
  }

  /** The first run of two or more spaces made one. */
  function FirstCollapsed(s: string): string {
    if |s| < 2 then s
    else if s[0] == ' ' && s[1] == ' ' then " " + TrimStart(s)
    else [s[0]] + FirstCollapsed(s[1..])
  }

  const LIMIT_CHARS := "-0123456789"

  /** The characters with commas between them. */
  function Commas(cs: string): string {
    if |cs| <= 1 then cs else [cs[0]] + "," + Commas(cs[1..])
  }

  /** MSSQL's whitelist of the limit: -,0,1,2,3,4,5,6,7,8,9 */
  const OMIT_LIMIT := Commas(LIMIT_CHARS)

  /** The text that an engine is left with. */
  function Filtered(e: Engine, s: string): Option<string> {
    match e
    case Postgres => NullIfBlank(Some(FirstCollapsed(FirstOmitted(s))))
    case MariaDb => NullIfBlank(Some(Collapse(EachOmitted(s))))
    case MsSql => NullIfBlank(Omitted(Some(s), Some(OMIT_LIMIT)))
  }

  function Minus(n: nat): int {
    0 - n
  }

  /** `cast(... as int)` on a text of digits with at most one sign; other texts
      are errors, which this model does not tell apart from a missing limit. */
  function CastInt(s: string): Option<int> {
    if AllDigits(s) then Some(Numeral(s))
    else if s != "" && s[0] == '-' && AllDigits(s[1..]) then Some(Minus(Numeral(s[1..])))
    else None
  }

  /** The limit that the query of an engine uses for a bound text. */
  function SqlLimit(e: Engine, text: string): nat {
    var filtered := Filtered(e, text);
    E.LimitOf(if filtered.Some? then CastInt(filtered.value) else None)
  }

  predicate AllNumeric(s: string) {
    s != "" && forall k :: 0 <= k < |s| ==> Numeric(s[k])
  }

  lemma {:induction false} NumericBare(s: string)
    requires AllNumeric(s)
    ensures Bare(s) && !HasDouble(s) && Trim(s) == s && TrimEnd(s) == s
  {
    TrimIdle(s);
    TrimEndIdle(s);
  }

  lemma {:induction false} FirstIdle(s: string)
    requires forall k :: 0 <= k < |s| ==> Numeric(s[k])
    ensures FirstOmitted(s) == s && FirstCollapsed(s) == s
  {
    if s != "" {
      var tail := s[1..];
      assert forall k :: 0 <= k < |tail| ==> tail[k] == s[k + 1];
      FirstIdle(tail);
    }
  }

  lemma {:induction false} CommasSplit(cs: string, c: char)
    requires ',' !in cs && c in cs
    ensures [c] in Split(Commas(cs))
  {
    var rest := Commas(cs[1..]);
    SplitWhole([cs[0]]);
    if |cs| > 1 {
      SplitJoin([cs[0]], rest);
      if c != cs[0] {
        CommasSplit(cs[1..], c);
      }
    }
  }

  lemma {:induction false} LimitCharsHold(c: char)
    requires Numeric(c)
    ensures c in LIMIT_CHARS && ',' !in LIMIT_CHARS
  {
    assert LIMIT_CHARS[if c == '-' then 0 else 1 + DigitValue(c)] == c;
  }

  lemma {:induction false} WhitelistHolds(list: string, cs: string, c: char)
    requires list == Commas(cs) && ',' !in cs && c in cs
    ensures c in Whitelist(list)
  {
    CommasSplit(cs, c);
    var parts := Split(list);
    var k :| 0 <= k < |parts| && parts[k] == [c];
    assert Listed(parts[k]) == c;
  }

  lemma {:induction false} NumericListed(c: char)
    requires Numeric(c)
    ensures c in Whitelist(OMIT_LIMIT)
  {
    LimitCharsHold(c);
    WhitelistHolds(OMIT_LIMIT, LIMIT_CHARS, c);
  }

  /** No filter changes a text of digits and minus signs. */
  lemma {:induction false} NumericPass(e: Engine, s: string)
    requires AllNumeric(s)
    ensures Filtered(e, s) == Some(s)
  {
    NumericBare(s);
    match e {
      case Postgres =>
        FirstIdle(s);
      case MariaDb =>
        assert EachOmitted(s) == s;
        CollapseIdle(s);
      case MsSql =>
        OmitLimitIdle(s);
    }
  }

  lemma {:induction false} OmittedIdle(list: string, s: string)
    requires AllNumeric(s) && TrimEnd(list) != "" && forall k :: 0 <= k < |s| ==> s[k] in Whitelist(list)
    ensures Omitted(Some(s), Some(list)) == Some(s)
  {
    NumericBare(s);
    assert Masked(Whitelist(list), s) == s;
    CollapseIdle(s);
  }

  lemma {:induction false} EndsBare(list: string)
    requires list != "" && list[|list| - 1] != ' '
    ensures TrimEnd(list) != ""
  {
    TrimEndIdle(list);
  }

  lemma {:induction false} OmitLimitIdle(s: string)
    requires AllNumeric(s)
    ensures Omitted(Some(s), Some(OMIT_LIMIT)) == Some(s)
  {
    EndsBare(OMIT_LIMIT);
    forall k | 0 <= k < |s|
      ensures s[k] in Whitelist(OMIT_LIMIT)
    {
      NumericListed(s[k]);
    }
    OmittedIdle(OMIT_LIMIT, s);
  }

  /** Whatever the query string holds, every engine uses the very limit that the
      server computed: the default of the procedures never applies. */
  lemma {:induction false} LimitSurvives(e: Engine, limit: Option<string>)
    ensures SqlLimit(e, Decimal(FromMap(limit))) == FromMap(limit)
  {
    var n := FromMap(limit);
    NumericPass(e, Decimal(n));
    NumeralOfDecimal(n);
  }

  /** Of the numbers sent by any client, each engine uses those from 1 to 100, and 25 for
      zero, larger and negative ones. */
  lemma {:induction false} SqlLimitReads(e: Engine, n: nat)
    ensures SqlLimit(e, Decimal(n)) == if 1 <= n <= 100 then n else 25
    ensures SqlLimit(e, "-" + Decimal(n)) == 25
  {
    var negative := "-" + Decimal(n);
    NumeralOfDecimal(n);
    assert negative[0] == '-' && negative[1..] == Decimal(n);
    NumericPass(e, Decimal(n));
    NumericPass(e, negative);
  }

  /** Where the filters part: Postgres, without a global flag, omits one character and
      one run of spaces only. */
  lemma {:induction false} FiltersPart(a: string, b: string)
    requires a == "1a2b" && b == "1  2"
    ensures Filtered(Postgres, a) == Some("1 2b") && Filtered(MariaDb, a) == Some("1 2")
    ensures Filtered(Postgres, b) == Some("1 2") && Filtered(MariaDb, b) == Some("1 2")
  {
    PostgresFilters(a, b);
    MariaFilters(a, b);
  }

  lemma {:induction false} PostgresFilters(a: string, b: string)
    requires a == "1a2b" && b == "1  2"
    ensures Filtered(Postgres, a) == Some("1 2b") && Filtered(Postgres, b) == Some("1 2")
  {
    OmitOnce("1", 'a', "2b");
    OmitOnce("1", ' ', " 2");
    assert a == "1" + ['a'] + "2b" && b == "1" + [' '] + " 2";
    assert FirstOmitted(a) == "1 2b" && FirstOmitted(b) == "1  2";
    assert FirstCollapsed("1 2b") == "1 2b";
    assert FirstCollapsed("1  2") == "1 2";
    TrimIdle("1 2b");
    TrimIdle("1 2");
  }

  lemma {:induction false} OmitOnce(s: string, c: char, t: string)
    requires (forall k :: 0 <= k < |s| ==> Numeric(s[k])) && !Numeric(c)
    ensures FirstOmitted(s + [c] + t) == s + " " + t
  {
    var all := s + [c] + t;
    if s == "" {
      assert all[0] == c && all[1..] == t;
    } else {
      assert all[0] == s[0] && all[1..] == s[1..] + [c] + t;
      OmitOnce(s[1..], c, t);
    }
  }

  lemma {:induction false} MariaFilters(a: string, b: string)
    requires a == "1a2b" && b == "1  2"
    ensures Filtered(MariaDb, a) == Some("1 2") && Filtered(MariaDb, b) == Some("1 2")
  {
    assert EachOmitted(a) == "1 2 " && EachOmitted(b) == "1  2";
    CollapseIdle("1 2 ");
    assert Collapse("1  2") == "1 2";
    TrimIdle("1 2");
    TrimStartIdle("1 2 ");
    TrimEndIdle("1 2");
    assert "1 2 "[..3] == "1 2";
    assert TrimEnd("1 2 ") == TrimEnd("1 2");
  }
}
