/** The MSSQL function `OmitCharacters` and the cleaning of each text parameter. */
module Sanitiser {
  import opened Feed

  // --------------------------------------------------------------- whitelist

  /** `string_split(s, ',')` */
  function Split(s: string): (parts: seq<string>)
    ensures parts != []
  {
    if s == "" then [""]
    else if s[0] == ',' then [""] + Split(s[1..])
    else var rest := Split(s[1..]);
      [[s[0]] + rest[0]] + rest[1..]
  }

  lemma {:induction false} SplitJoin(a: string, b: string)
    ensures Split(a + "," + b) == Split(a) + Split(b)
  {
    var s := a + "," + b;
    if a == "" {
      assert s == "," + b && s[1..] == b;
    } else {
      assert s[0] == a[0] && s[1..] == a[1..] + "," + b;
      SplitJoin(a[1..], b);
    }
  }

  lemma {:induction false} SplitWhole(s: string)
    requires ',' !in s
    ensures Split(s) == [s]
  {
    if s != "" {
      SplitWhole(s[1..]);
      assert [s[0]] + s[1..] == s;
    }
  }

  /** The character a list element stands for; an empty element is the comma. */
  function Listed(part: string): char {
    if part == "" then ',' else part[0]
  }

  /** The characters of the list, each in one row (`group by`). */
  function Grouped(parts: seq<string>): (cs: seq<char>)
    ensures forall i, j :: 0 <= i < j < |cs| ==> cs[i] != cs[j]
    ensures forall c :: c in cs <==> exists k :: 0 <= k < |parts| && Listed(parts[k]) == c
  {
    if parts == [] then [] else
    var n := |parts| - 1;
    var rest := Grouped(parts[..n]);
    assert forall k :: 0 <= k < n ==> parts[..n][k] == parts[k];
    if Listed(parts[n]) in rest then rest else rest + [Listed(parts[n])]
  }

  function Whitelist(list: string): seq<char> {
    Grouped(Split(list))
  }

  /** One character joined with the whitelist rows: itself once per matching row,
      a space when there is none. */
  function JoinChar(rows: seq<char>, c: char): string {
    if c in rows then Copies(rows, c) else " "
  }

  function Copies(rows: seq<char>, c: char): string {
    if rows == [] then "" else (if rows[0] == c then [c] else "") + Copies(rows[1..], c)
  }

  /** `string_agg` over the joined input. */
  function JoinAll(rows: seq<char>, s: string): string {
    if s == "" then "" else JoinChar(rows, s[0]) + JoinAll(rows, s[1..])
  }

  predicate Unique(rows: seq<char>) {
    forall i, j :: 0 <= i < j < |rows| ==> rows[i] != rows[j]
  }

  function Masked(rows: seq<char>, s: string): (t: string)
    ensures |t| == |s|
    ensures forall k :: 0 <= k < |s| ==> t[k] == if s[k] in rows then s[k] else ' '
  {
    seq(|s|, k requires 0 <= k < |s| => if s[k] in rows then s[k] else ' ')
  }

  lemma {:induction false} OneCopy(rows: seq<char>, c: char)
    requires Unique(rows)
    ensures Copies(rows, c) == if c in rows then [c] else ""
  {
    if rows != [] {
      assert forall k :: 1 <= k < |rows| ==> rows[k] == rows[1..][k - 1];
      OneCopy(rows[1..], c);
    }
  }

  /** Because the whitelist rows are grouped, the join keeps one character for
      every input character: itself when listed, a space otherwise. */
  lemma {:induction false} JoinIsMask(rows: seq<char>, s: string)
    requires Unique(rows)
    ensures JoinAll(rows, s) == Masked(rows, s)
  {
    if s != "" {
      OneCopy(rows, s[0]);
      JoinIsMask(rows, s[1..]);
    }
  }

  // --------------------------------------------------------- collapsing spaces

  /** `charindex('  ', s) > 0` */
  predicate HasDouble(s: string) {
    exists i :: 0 <= i < |s| - 1 && s[i] == ' ' && s[i + 1] == ' '
  }

  /** `replace(s, '  ', ' ')`: one pass from left to right over disjoint pairs. */
  function Halve(s: string): (t: string)
    ensures |t| <= |s|
    ensures t == "" <==> s == ""
    ensures s != "" ==> t[0] == s[0]
    decreases |s|
  {
    if |s| < 2 then s
    else if s[0] == ' ' && s[1] == ' ' then " " + Halve(s[2..])
    else [s[0]] + Halve(s[1..])
  }

  /** Every run of spaces made a single space, in one pass. */
  function Collapse(s: string): string {
    if |s| < 2 then s
    else if s[0] == ' ' && s[1] == ' ' then Collapse(s[1..])
    else [s[0]] + Collapse(s[1..])
  }

  lemma {:induction false} HalveCollapses(s: string)
    ensures Collapse(Halve(s)) == Collapse(s)
    ensures Collapse(" " + Halve(s)) == Collapse(" " + s)
    decreases |s|
  {
    if |s| >= 2 {
      if s[0] == ' ' && s[1] == ' ' {
        HalveCollapses(s[2..]);
        assert s[1..] == " " + s[2..];
      } else {
        HalveCollapses(s[1..]);
        assert Halve(s)[1..] == Halve(s[1..]);
      }
    }
    if s != "" {
      assert (" " + s)[1..] == s && (" " + Halve(s))[1..] == Halve(s);
    }
  }

  lemma {:induction false} CollapseIdle(s: string)
    requires !HasDouble(s)
    ensures Collapse(s) == s
  {
    if |s| >= 2 {
      assert !(s[0] == ' ' && s[0 + 1] == ' ');
      forall i | 0 <= i < |s[1..]| - 1
        ensures !(s[1..][i] == ' ' && s[1..][i + 1] == ' ')
      {
        assert s[1..][i] == s[i + 1] && s[1..][i + 1] == s[(i + 1) + 1];
      }
      CollapseIdle(s[1..]);
    }
  }

  lemma {:induction false} HalveShrinks(s: string)
    requires HasDouble(s)
    ensures |Halve(s)| < |s|
    decreases |s|
  {
    if !(s[0] == ' ' && s[1] == ' ') {
      var i :| 0 <= i < |s| - 1 && s[i] == ' ' && s[i + 1] == ' ';
      assert s[1..][i - 1] == ' ' && s[1..][(i - 1) + 1] == ' ';
      HalveShrinks(s[1..]);
    }
  }

  // ------------------------------------------------------------ counting passes

  /** The number of spaces at the start. */
  function Lead(s: string): nat {
    if s != "" && s[0] == ' ' then 1 + Lead(s[1..]) else 0
  }

  function Max(a: nat, b: nat): nat {
    if a < b then b else a
  }

  /** The length of the longest run of spaces. */
  function MaxRun(s: string): nat {
    if s == "" then 0 else Max(Lead(s), MaxRun(s[1..]))
  }

  lemma {:induction false} HalveLead(s: string)
    ensures Lead(Halve(s)) == (Lead(s) + 1) / 2
    decreases |s|
  {
    if |s| >= 2 {
      if s[0] == ' ' && s[1] == ' ' {
        HalveLead(s[2..]);
        assert Halve(s)[1..] == Halve(s[2..]);
        assert s[1..][1..] == s[2..];
      } else {
        HalveLead(s[1..]);
        assert Halve(s)[1..] == Halve(s[1..]);
      }
    }
  }

  /** One pass halves every run of spaces, rounding up. */
  lemma {:induction false} HalveHalvesRuns(s: string)
    ensures MaxRun(Halve(s)) == (MaxRun(s) + 1) / 2
    decreases |s|
  {
    HalveLead(s);
    if |s| >= 2 {
      if s[0] == ' ' && s[1] == ' ' {
        HalveHalvesRuns(s[2..]);
        assert Halve(s)[1..] == Halve(s[2..]);
        assert s[1..][1..] == s[2..];
      } else {
        HalveHalvesRuns(s[1..]);
        assert Halve(s)[1..] == Halve(s[1..]);
      }
    }
  }

  lemma {:induction false} DoubleIsRun(s: string)
    ensures HasDouble(s) <==> MaxRun(s) >= 2
  {
    if s != "" {
      DoubleIsRun(s[1..]);
      var tail := s[1..];
      assert forall i :: 0 <= i < |tail| ==> tail[i] == s[i + 1];
      if i :| 0 <= i < |s| - 1 && s[i] == ' ' && s[i + 1] == ' ' {
        if i > 0 {
          assert s[1..][i - 1] == ' ' && s[1..][(i - 1) + 1] == ' ';
        }
      }
      if Lead(s) >= 2 {
        assert s[0] == ' ' && s[0 + 1] == ' ';
      }
    }
  }

  function Pow2(k: nat): nat {
    if k == 0 then 1 else 2 * Pow2(k - 1)
  }

  function Passes(k: nat, s: string): string {
    if k == 0 then s else Passes(k - 1, Halve(s))
  }

  /** After k passes no double space is left exactly when the longest run of
      spaces had at most 2^k of them. */
  lemma {:induction false} PassesSuffice(k: nat, s: string)
    ensures !HasDouble(Passes(k, s)) <==> MaxRun(s) <= Pow2(k)
  {
    if k == 0 {
      DoubleIsRun(s);
    } else {
      HalveHalvesRuns(s);
      PassesSuffice(k - 1, Halve(s));
    }
  }

  lemma {:induction false} OnePassMore(k: nat, s: string)
    ensures Passes(k + 1, s) == Halve(Passes(k, s))
  {
    if k != 0 {
      OnePassMore(k - 1, Halve(s));
    }
  }

  /** The loop over double spaces. It makes every run a single space, in as many
      passes as the binary logarithm of the longest run, rounded up. */
  method CollapseSpaces(s: string) returns (t: string, ghost passes: nat)
    ensures t == Collapse(s) && !HasDouble(t)
    ensures MaxRun(s) <= Pow2(passes) && (passes > 0 ==> Pow2(passes - 1) < MaxRun(s))
  {
    t, passes := s, 0;
    while HasDouble(t)
      invariant Collapse(t) == Collapse(s)
      invariant t == Passes(passes, s)
      invariant passes > 0 ==> Pow2(passes - 1) < MaxRun(s)
      decreases |t|
    {
      HalveShrinks(t);
      HalveCollapses(t);
      OnePassMore(passes, s);
      PassesSuffice(passes, s);
      t := Halve(t);
      passes := passes + 1;
    }
    PassesSuffice(passes, s);
    CollapseIdle(t);
  }

  // ------------------------------------------------------------- the function

  /** What `OmitCharacters` computes; T-SQL's `len` and `= ''` ignore trailing spaces. */
  function Omitted(input: Option<string>, list: Option<string>): Option<string> {
    if input.None? || TrimEnd(input.value) == "" || list.None? || TrimEnd(list.value) == "" then None
    else Some(Trim(Collapse(Masked(Whitelist(list.value), TrimEnd(input.value)))))
  }

  method OmitCharacters(inputString: Option<string>, characterInput: Option<string>) returns (stringResult: Option<string>)
    ensures stringResult == Omitted(inputString, characterInput)
  {
    if inputString.None? || TrimEnd(inputString.value) == "" || characterInput.None? || TrimEnd(characterInput.value) == "" {
      return None;
    }
    var input := inputString.value;
    ghost var _ := TrimEndTakes(input);
    var inputLength := |TrimEnd(input)|;
    var inputTemp := "";
    var curPos := 1;
    while curPos <= inputLength
      invariant 1 <= curPos <= inputLength + 1
      invariant inputTemp == input[..curPos - 1]
    {
      inputTemp := inputTemp + [input[curPos - 1]];
      curPos := curPos + 1;
    }
    var rows := Whitelist(characterInput.value);
    var joined := JoinAll(rows, inputTemp);
    JoinIsMask(rows, inputTemp);
    var collapsed, _ := CollapseSpaces(joined);
    return Some(Trim(collapsed));
  }

  /** The cleaning of a text parameter: omit, cut to `n` characters, trim, and
      make an empty text null. */
  function Sanitised(list: string, n: nat, s: string): Option<string> {
    var omitted := Omitted(Some(s), Some(list));
    if omitted.None? then None
    else NullIfBlank(Some(Cut(n, omitted.value)))
  }

  /** A text that has nothing left to clean. */
  predicate Clean(list: string, n: nat, t: string) {
    && t != "" && |t| <= n && Trim(t) == t && !HasDouble(t)
    && Made(Whitelist(list), t)
  }

  lemma {:induction false} TrimStartEmpty(s: string)
    ensures TrimStart(s) == "" <==> AllSpaces(s)
  {
    if s != "" && s[0] == ' ' {
      TrimStartEmpty(s[1..]);
      var tail := s[1..];
      assert forall k :: 0 <= k < |tail| ==> tail[k] == s[k + 1];
      assert forall k :: 1 <= k < |s| ==> s[k] == tail[k - 1];
    }
  }

  lemma {:induction false} TrimEndEmpty(s: string)
    ensures TrimEnd(s) == "" <==> AllSpaces(s)
  {
    if s != "" && s[|s| - 1] == ' ' {
      TrimEndEmpty(s[..|s| - 1]);
    }
  }

  lemma {:induction false} TrimSlice(s: string) returns (i: nat)
    ensures i + |Trim(s)| <= |s| && Trim(s) == s[i..i + |Trim(s)|]
  {
    i := TrimStartTakes(s);
    var j := TrimEndTakes(TrimStart(s));
    assert s[i..][..j] == s[i..i + j];
  }

  lemma {:induction false} TrimBlank(s: string)
    ensures Trim(s) == "" <==> AllSpaces(s)
  {
    var t := TrimStart(s);
    var _ := TrimStartTakes(s);
    TrimStartEmpty(s);
    TrimEndEmpty(t);
    if t != "" {
      assert t[0] != ' ' && !AllSpaces(t);
    }
  }

  lemma {:induction false} TrimBare(s: string)
    ensures Bare(Trim(s))
  {
    var _ := TrimStartTakes(s);
    var _ := TrimEndTakes(TrimStart(s));
  }

  /** Trimming takes a slice that begins and ends with no space. */
  lemma {:induction false} TrimFacts(s: string) returns (i: nat)
    ensures i + |Trim(s)| <= |s| && Trim(s) == s[i..i + |Trim(s)|]
    ensures (Trim(s) == "" <==> AllSpaces(s)) && Bare(Trim(s))
  {
    i := TrimSlice(s);
    TrimBlank(s);
    TrimBare(s);
  }

  lemma {:induction false} TrimStartIdle(t: string)
    ensures TrimStart(t) == t <==> t == "" || t[0] != ' '
  {
    var _ := TrimStartTakes(t);
  }

  lemma {:induction false} TrimEndIdle(t: string)
    ensures TrimEnd(t) == t <==> t == "" || t[|t| - 1] != ' '
  {
    var _ := TrimEndTakes(t);
  }

  /** The ends of a text hold no space. */
  predicate Bare(t: string) {
    t == "" || (t[0] != ' ' && t[|t| - 1] != ' ')
  }

  lemma {:induction false} TrimIdle(t: string)
    ensures Trim(t) == t <==> Bare(t)
  {
    TrimStartIdle(t);
    TrimEndIdle(t);
    TrimBare(t);
  }

  /** Every character is a space or one of `rows`. */
  predicate Made(rows: seq<char>, t: string) {
    forall k :: 0 <= k < |t| ==> t[k] == ' ' || t[k] in rows
  }

  lemma {:induction false} SliceFacts(rows: seq<char>, s: string, i: nat, j: nat)
    requires i <= j <= |s|
    ensures Made(rows, s) ==> Made(rows, s[i..j])
    ensures !HasDouble(s) ==> !HasDouble(s[i..j])
  {
    var t := s[i..j];
    if k :| 0 <= k < |t| - 1 && t[k] == ' ' && t[k + 1] == ' ' {
      assert s[i + k] == ' ' && s[(i + k) + 1] == ' ';
    }
  }

  lemma {:induction false} CollapseSpacesOnly(s: string)
    ensures Collapse(s) == "" <==> s == ""
    ensures s != "" ==> Collapse(s)[0] == s[0]
    ensures AllSpaces(Collapse(s)) <==> AllSpaces(s)
  {
    if |s| >= 2 {
      var tail := s[1..];
      CollapseSpacesOnly(tail);
      assert AllSpaces(s) <==> s[0] == ' ' && AllSpaces(tail) by {
        assert forall k :: 0 <= k < |tail| ==> tail[k] == s[k + 1];
        assert forall k :: 1 <= k < |s| ==> s[k] == tail[k - 1];
      }
      if !(s[0] == ' ' && s[1] == ' ') {
        var rest := Collapse(tail);
        var c := [s[0]] + rest;
        assert AllSpaces(c) <==> s[0] == ' ' && AllSpaces(rest) by {
          assert c[0] == s[0];
          assert forall k :: 0 <= k < |rest| ==> rest[k] == c[k + 1];
          assert forall k :: 1 <= k < |c| ==> c[k] == rest[k - 1];
        }
      }
    }
  }

  lemma {:induction false} CollapseMade(rows: seq<char>, s: string)
    requires Made(rows, s)
    ensures Made(rows, Collapse(s)) && !HasDouble(Collapse(s))
  {
    if |s| >= 2 {
      var tail := s[1..];
      assert Made(rows, tail) by {
        SliceFacts(rows, s, 1, |s|);
      }
      CollapseMade(rows, tail);
      if !(s[0] == ' ' && s[1] == ' ') {
        CollapseSpacesOnly(tail);
        Prepended(rows, s[0], Collapse(tail));
      }
    }
  }

  lemma {:induction false} Prepended(rows: seq<char>, c: char, t: string)
    requires (c == ' ' || c in rows) && Made(rows, t) && !HasDouble(t)
    requires !(c == ' ' && t != "" && t[0] == ' ')
    ensures Made(rows, [c] + t) && !HasDouble([c] + t)
  {
    var u := [c] + t;
    forall i | 0 <= i < |u| - 1
      ensures !(u[i] == ' ' && u[i + 1] == ' ')
    {
      assert i > 0 ==> u[i] == t[i - 1] && u[i + 1] == t[(i - 1) + 1];
    }
  }

  /** The text as `OmitCharacters` leaves it, and its cut. */
  function Cut(n: nat, s: string): string {
    if |s| <= n then s else s[..n]
  }

  lemma {:induction false} CollapsedIsTidy(rows: seq<char>, masked: string)
    requires Made(rows, masked)
    ensures var t := Trim(Collapse(masked)); Made(rows, t) && !HasDouble(t) && Bare(t)
  {
    var collapsed := Collapse(masked);
    CollapseMade(rows, masked);
    var i := TrimFacts(collapsed);
    SliceFacts(rows, collapsed, i, i + |Trim(collapsed)|);
  }

  lemma {:induction false} OmittedForm(list: string, s: string)
    requires Omitted(Some(s), Some(list)).Some?
    ensures Omitted(Some(s), Some(list)).value == Trim(Collapse(Masked(Whitelist(list), TrimEnd(s))))
  {}

  lemma {:induction false} OmittedIsTidy(list: string, s: string)
    requires Omitted(Some(s), Some(list)).Some?
    ensures var t := Omitted(Some(s), Some(list)).value;
      Made(Whitelist(list), t) && !HasDouble(t) && Bare(t)
  {
    OmittedForm(list, s);
    CollapsedIsTidy(Whitelist(list), Masked(Whitelist(list), TrimEnd(s)));
  }

  lemma {:induction false} CutIsClean(rows: seq<char>, n: nat, t: string)
    requires Made(rows, t) && !HasDouble(t)
    ensures var u := Trim(Cut(n, t)); Made(rows, u) && !HasDouble(u) && Bare(u) && |u| <= n
  {
    var cut := Cut(n, t);
    assert cut == t[0..|cut|];
    SliceFacts(rows, t, 0, |cut|);
    var i := TrimFacts(cut);
    SliceFacts(rows, cut, i, i + |Trim(cut)|);
  }

  /** Whatever comes out is clean: listed characters and single inner spaces,
      trimmed, and no longer than allowed. */
  lemma {:induction false} SanitisedIsClean(list: string, n: nat, s: string)
    requires Sanitised(list, n, s).Some?
    ensures Clean(list, n, Sanitised(list, n, s).value)
  {
    var t := Omitted(Some(s), Some(list)).value;
    OmittedIsTidy(list, s);
    CutIsClean(Whitelist(list), n, t);
    TrimIdle(Trim(Cut(n, t)));
  }

  /** The clean texts are exactly the fixed points. */
  lemma {:induction false} CleanIsFixed(list: string, n: nat, t: string)
    requires TrimEnd(list) != ""
    ensures Clean(list, n, t) <==> Sanitised(list, n, t) == Some(t)
  {
    if Clean(list, n, t) {
      TrimIdle(t);
      TrimEndEmpty(t);
      assert TrimEnd(t) == t;
      assert Masked(Whitelist(list), t) == t;
      CollapseIdle(t);
    } else if Sanitised(list, n, t) == Some(t) {
      SanitisedIsClean(list, n, t);
    }
  }

  /** Cleaning twice is cleaning once. */
  lemma {:induction false} SanitisedIdempotent(list: string, n: nat, s: string)
    requires TrimEnd(list) != "" && Sanitised(list, n, s).Some?
    ensures Sanitised(list, n, Sanitised(list, n, s).value) == Sanitised(list, n, s)
  {
    SanitisedIsClean(list, n, s);
    CleanIsFixed(list, n, Sanitised(list, n, s).value);
  }

  lemma {:induction false} TrimEndRest(s: string)
    ensures forall k :: |TrimEnd(s)| <= k < |s| ==> s[k] == ' '
  {
    if s != "" && s[|s| - 1] == ' ' {
      TrimEndRest(s[..|s| - 1]);
    }
  }

  lemma {:induction false} MaskedBlank(rows: seq<char>, s: string)
    ensures AllSpaces(Masked(rows, TrimEnd(s))) <==> forall k :: 0 <= k < |s| ==> s[k] == ' ' || s[k] !in rows
  {
    var input := TrimEnd(s);
    var masked := Masked(rows, input);
    var _ := TrimEndTakes(s);
    TrimEndRest(s);
    if AllSpaces(masked) {
      forall k | 0 <= k < |s|
        ensures s[k] == ' ' || s[k] !in rows
      {
        if k < |input| {
          assert masked[k] == ' ' && s[k] == input[k];
        }
      }
    } else {
      var k :| 0 <= k < |masked| && masked[k] != ' ';
      assert s[k] == input[k];
    }
  }

  lemma {:induction false} CutBlank(n: nat, t: string)
    requires n >= 1 && Bare(t)
    ensures Trim(Cut(n, t)) == "" <==> t == ""
  {
    TrimBlank(Cut(n, t));
    assert t != "" ==> Cut(n, t)[0] == t[0];
  }

  lemma {:induction false} TidyBlank(n: nat, masked: string)
    requires n >= 1
    ensures Trim(Cut(n, Trim(Collapse(masked)))) == "" <==> AllSpaces(masked)
  {
    CollapseSpacesOnly(masked);
    TrimBlank(Collapse(masked));
    TrimBare(Collapse(masked));
    CutBlank(n, Trim(Collapse(masked)));
  }

  /** A parameter becomes null exactly when it has no listed character but spaces. */
  lemma {:induction false} SanitisedNull(list: string, n: nat, s: string)
    requires TrimEnd(list) != "" && n >= 1
    ensures Sanitised(list, n, s).None? <==> forall k :: 0 <= k < |s| ==> s[k] == ' ' || s[k] !in Whitelist(list)
  {
    var rows := Whitelist(list);
    MaskedBlank(rows, s);
    if TrimEnd(s) == "" {
      assert AllSpaces(Masked(rows, TrimEnd(s)));
    } else {
      OmittedForm(list, s);
      TidyBlank(n, Masked(rows, TrimEnd(s)));
    }
  }

  // -------------------------------------------------------------- told literally

  /** Element `k` of the list begins with the character, or is empty, which lists the
      comma. */
  predicate Lists(parts: seq<string>, k: int, c: char) {
    0 <= k < |parts| && if |parts[k]| > 0 then parts[k][0] == c else c == ','
  }

  /** The characters listed: the first of every element, and the comma for an empty one. */
  lemma {:induction false} WhitelistReads(list: string, c: char)
    ensures c in Whitelist(list) <==> exists k :: Lists(Split(list), k, c)
  {
    var parts := Split(list);
    if c in Whitelist(list) {
      var k :| 0 <= k < |parts| && Listed(parts[k]) == c;
      assert Lists(parts, k, c);
    }
    if k :| Lists(parts, k, c) {
      assert Listed(parts[k]) == c;
      assert c in Grouped(parts);
      assert c in Whitelist(list);
      assert exists k :: Lists(Split(list), k, c);
    }
  }

  /** Texts that do not meet in two spaces collapse each for itself, a run of spaces to
      one, and any other character to itself. */
  lemma {:induction false} CollapseReads(a: string, b: string, c: char)
    requires a == "" || b == "" || a[|a| - 1] != ' ' || b[0] != ' '
    ensures Collapse(a + b) == Collapse(a) + Collapse(b)
    ensures Collapse("") == "" && Collapse([c]) == [c]
    ensures a != "" && AllSpaces(a) ==> Collapse(a) == " "
    decreases |a|
  {
    if a == "" {
      assert a + b == b;
    } else if b == "" {
      assert a + b == a;
      CollapseRun(a);
    } else {
      CollapseRun(a);
      assert (a + b)[0] == a[0] && (a + b)[1..] == a[1..] + b;
      if |a| == 1 {
        assert a == [a[0]] && a[1..] + b == b;
      } else {
        CollapseReads(a[1..], b, c);
        assert (a + b)[1] == a[1];
      }
    }
  }

  lemma {:induction false} CollapseRun(a: string)
    ensures a != "" && AllSpaces(a) ==> Collapse(a) == " "
  {
    if |a| >= 2 && AllSpaces(a) {
      var tail := a[1..];
      assert forall k :: 0 <= k < |tail| ==> tail[k] == a[k + 1];
      CollapseRun(tail);
    } else if |a| == 1 {
      assert a == [a[0]];
    }
  }

  /** A clean text that is too long keeps its beginning. */
  lemma {:induction false} SanitisedCuts(list: string, n: nat, t: string)
    requires TrimEnd(list) != "" && n >= 1 && Clean(list, |t|, t)
    ensures Sanitised(list, n, t) == Some(if |t| <= n then t else if t[n - 1] == ' ' then t[..n - 1] else t[..n])
  {
    TrimIdle(t);
    TrimEndIdle(t);
    assert Masked(Whitelist(list), t) == t;
    CollapseIdle(t);
    assert Omitted(Some(t), Some(list)) == Some(t);
    CutTrims(n, t);
  }

  lemma {:induction false} CutTrims(n: nat, t: string)
    requires n >= 1 && t != "" && Bare(t) && !HasDouble(t)
    ensures Trim(Cut(n, t)) == if |t| <= n then t else if t[n - 1] == ' ' then t[..n - 1] else t[..n]
  {
    var cut := Cut(n, t);
    assert cut[0] == t[0];
    TrimStartIdle(cut);
    if |t| > n && t[n - 1] == ' ' {
      assert n >= 2;
      assert t[(n - 2) + 1] == ' ';
      assert TrimEnd(cut) == TrimEnd(cut[..n - 1]) && cut[..n - 1] == t[..n - 1];
      TrimEndIdle(t[..n - 1]);
    } else {
      TrimEndIdle(cut);
    }
  }

  /** Any text is cleaned as what is left of it when characters have been omitted. */
  lemma {:induction false} SanitisedOfOmitted(list: string, n: nat, s: string, t: string)
    requires Omitted(Some(s), Some(list)) == Some(t) && t != ""
    ensures Clean(list, |t|, t) && Sanitised(list, n, s) == Sanitised(list, n, t)
  {
    OmittedIsTidy(list, s);
    TrimIdle(t);
    TrimEndIdle(t);
    assert Masked(Whitelist(list), t) == t;
    CollapseIdle(t);
  }
}
