/** The entities of the news feed service: items as clients send them, rows as
    the table stores them, and the answers a bulk procedure gives. */
module Feed {

  datatype Option<+T> = None | Some(value: T)

  /** The sort key of a text under a column's collation. Two texts are equal
      under the collation when their keys are, and are ordered by their keys. */
  type Collation = string -> real

  /** One element of a create, update or delete payload. */
  datatype Item = Item(
    title: Option<string>,
    imageUrl: Option<string>,
    feedUrl: Option<string>,
    actualUrl: Option<string>,
    publishDate: Option<string>)

  /** One row of the `newsfeed` table. `created` and `modified` are clock readings. */
  datatype Row = Row(
    title: string,
    imageUrl: Option<string>,
    feedUrl: string,
    actualUrl: Option<string>,
    publishDate: string,
    created: int,
    modified: int)

  datatype Mode = Insert | Update | Delete

  /** The message of one reported status. */
  datatype Outcome = Inserted | Updated | Deleted | SkippedExists | SkippedNotFound | InvalidMode

  datatype CudStatus = Success | Skipped | Error

  /** The `Status` that every procedure reports beside each message. */
  function StatusOf(o: Outcome): CudStatus {
    match o
    case Inserted | Updated | Deleted => Success
    case SkippedExists | SkippedNotFound => Skipped
    case InvalidMode => Error
  }

  /** Drops the spaces at both ends, as SQL `trim` does. */
  function Trim(s: string): string {
    TrimEnd(TrimStart(s))
  }

  function TrimStart(s: string): string {
    if s != "" && s[0] == ' ' then TrimStart(s[1..]) else s
  }

  function TrimEnd(s: string): string {
    if s != "" && s[|s| - 1] == ' ' then TrimEnd(s[..|s| - 1]) else s
  }

  predicate AllSpaces(s: string) {
    forall k :: 0 <= k < |s| ==> s[k] == ' '
  }

  /** Trimming takes spaces off an end, and leaves none there. */
  lemma {:induction false} TrimStartTakes(s: string) returns (i: nat)
    ensures i <= |s| && TrimStart(s) == s[i..] && (i < |s| ==> s[i] != ' ') && AllSpaces(s[..i])
  {
    if s != "" && s[0] == ' ' {
      var j := TrimStartTakes(s[1..]);
      i := j + 1;
      assert forall k :: 1 <= k < i ==> s[k] == s[1..][..j][k - 1];
    } else {
      i := 0;
    }
  }

  lemma {:induction false} TrimEndTakes(s: string) returns (i: nat)
    ensures i <= |s| && TrimEnd(s) == s[..i] && (i > 0 ==> s[i - 1] != ' ') && AllSpaces(s[i..])
  {
    if s != "" && s[|s| - 1] == ' ' {
      var init := s[..|s| - 1];
      i := TrimEndTakes(init);
      assert forall k :: i <= k < |s| - 1 ==> s[k] == init[i..][k - i];
    } else {
      i := |s|;
    }
  }

  /** `NULLIF(trim(x), '')` */
  function NullIfBlank(o: Option<string>): Option<string> {
    if o.Some? && Trim(o.value) != "" then Some(Trim(o.value)) else None
  }
}
