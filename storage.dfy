/**
 * The value-level helpers of the chat server: the message table's rows, the history
 * query and its reversal, the upload extension check, the log-line truncation and the
 * markdown an image message is stored as.
 */
module Storage {
  import opened Wrappers
  import opened Text

  /** A row of the `messages` table: author, raw (unrendered) text and the stored timestamp. */
  datatype Record = Record(username: string, message: string, timestamp: string)

  /** One element of the `/history` response: author, rendered HTML and the stored timestamp. */
  datatype HistoryEntry = HistoryEntry(username: string, message: string, timestamp: string)

  /** `LIMIT 50` of the history query. */
  const HistoryLimit: nat := 50

  function Min(a: nat, b: nat): nat
  {
    if a <= b then a else b
  }

  /** `xs[::-1]`: element k of the result is element |xs|-1-k of the input. */
  function Reverse<T>(xs: seq<T>): (r: seq<T>)
    ensures |r| == |xs|
    ensures forall k :: 0 <= k < |xs| ==> r[k] == xs[|xs| - 1 - k]
  {
    if xs == [] then [] else [xs[|xs| - 1]] + Reverse(xs[..|xs| - 1])
  }

  /**
   * `SELECT ... ORDER BY timestamp DESC LIMIT limit` over the table in insertion order: the newest
   * `limit` rows, newest first.
   */
  function QueryNewestFirst(table: seq<Record>, limit: nat): (rows: seq<Record>)
    ensures |rows| == Min(limit, |table|)
    ensures forall k :: 0 <= k < |rows| ==> rows[k] == table[|table| - 1 - k]
  {
    Reverse(table)[..Min(limit, |table|)]
  }

  /** The list comprehension of `get_history`: each row with its text rendered. */
  function RenderRows(rows: seq<Record>, render: string -> string): (entries: seq<HistoryEntry>)
    ensures |entries| == |rows|
    ensures forall k :: 0 <= k < |rows| ==>
      entries[k] == HistoryEntry(rows[k].username, render(rows[k].message), rows[k].timestamp)
  {
    if rows == [] then [] else RenderRows(rows[..|rows| - 1], render) + [RenderRow(rows[|rows| - 1], render)]
  }

  function RenderRow(row: Record, render: string -> string): HistoryEntry
  {
    HistoryEntry(row.username, render(row.message), row.timestamp)
  }

  /**
   * `get_history()`: the newest-first query result, rendered, then reversed. The result is the last
   * (at most) 50 rows of the table in insertion order, oldest first, each rendered: never more than
   * 50 entries, and all of them when the table is shorter.
   */
  function GetHistory(table: seq<Record>, render: string -> string): (history: seq<HistoryEntry>)
    ensures |history| == Min(HistoryLimit, |table|) <= HistoryLimit
    ensures history == RenderRows(table[|table| - Min(HistoryLimit, |table|)..], render)
  {
    var rows := QueryNewestFirst(table, HistoryLimit);
    var h := Reverse(RenderRows(rows, render));
    var start := |table| - Min(HistoryLimit, |table|);
    assert h == RenderRows(table[start..], render) by {
      var expected := RenderRows(table[start..], render);
      forall k | 0 <= k < |h| ensures h[k] == expected[k] {
        assert h[k] == RenderRows(rows, render)[|rows| - 1 - k];
        assert rows[|rows| - 1 - k] == table[start + k];
      }
    }
    h
  }

  /** The extensions `allowed_file` accepts. */
  const AllowedExtensions: set<string> := {"png", "jpg", "jpeg", "gif"}

  /** Position of the last '.' in the file name, the split point of `rsplit('.', 1)`. */
  function LastDot(filename: string): (r: Option<nat>)
    ensures r.Some? ==> r.value < |filename| && filename[r.value] == '.'
    ensures r.Some? ==> forall j :: r.value < j < |filename| ==> filename[j] != '.'
    ensures r.None? ==> forall j :: 0 <= j < |filename| ==> filename[j] != '.'
  {
    if filename == [] then None
    else if filename[|filename| - 1] == '.' then Some(|filename| - 1)
    else LastDot(filename[..|filename| - 1])
  }

  /** Position `i` holds the last '.' of the file name. */
  predicate IsLastDot(filename: string, i: nat)
  {
    i < |filename| && filename[i] == '.' && forall j :: i < j < |filename| ==> filename[j] != '.'
  }

  /**
   * `allowed_file(filename)`: the name holds a '.', and the text after the last '.' lower-cases to
   * one of png, jpg, jpeg, gif. (Python's `lower()` and ASCII lower-casing agree on this test: no
   * other character lower-cases to a letter of these four extensions.)
   */
  function AllowedFile(filename: string): (ok: bool)
    ensures ok <==> exists i: nat :: IsLastDot(filename, i) && AsciiLower(filename[i + 1..]) in AllowedExtensions
  {
    var r := LastDot(filename);
    if r.None? then false
    else
      var ok := AsciiLower(filename[r.value + 1..]) in AllowedExtensions;
      assert forall i: nat :: IsLastDot(filename, i) ==> i == r.value by {
        forall i: nat | IsLastDot(filename, i) ensures i == r.value {
          assert !(i < r.value) && !(r.value < i);
        }
      }
      assert ok ==> IsLastDot(filename, r.value);
      ok
  }

  /** Longest log excerpt kept whole, and the length kept before the ellipsis. */
  const LogLimit: nat := 50
  const LogKeep: nat := 47

  /**
   * The log truncation of `handle_message`, applied to the escaped text: short texts are kept,
   * longer ones keep their first 47 characters followed by "...", so every excerpt fits in 50.
   */
  function TruncateForLog(escaped: string): (r: string)
    ensures |r| <= LogLimit
    ensures |escaped| <= LogLimit ==> r == escaped
    ensures |escaped| > LogLimit ==> |r| == LogLimit && StartsWith(escaped, r[..LogKeep]) && r[LogKeep..] == "..."
  {
    if |escaped| > LogLimit then escaped[..LogKeep] + "..." else escaped
  }

  /** Truncating an excerpt again changes nothing. */
  lemma TruncateIdempotent(escaped: string)
    ensures TruncateForLog(TruncateForLog(escaped)) == TruncateForLog(escaped)
  {
  }

  const ImagePrefix: string := "![图片]("
  const ImageSuffix: string := ")"

  /** `f"![图片]({image_url})"`: the markdown an image message is stored as. */
  function ImageMarkup(url: string): (m: string)
    ensures StartsWith(m, ImagePrefix) && |m| == |ImagePrefix| + |url| + |ImageSuffix|
    ensures m[|m| - 1] == ')'
  {
    ImagePrefix + url + ImageSuffix
  }

  /** Reads the URL back out of an image markup, if the text has that shape. */
  function ImageUrl(m: string): Option<string>
  {
    if StartsWith(m, ImagePrefix) && |m| > |ImagePrefix| && m[|m| - 1] == ')'
    then Some(m[|ImagePrefix|..|m| - 1]) else None
  }

  /** The stored markup determines the URL: distinct URLs are never stored as the same text. */
  lemma ImageMarkupRoundTrip(url: string)
    ensures ImageUrl(ImageMarkup(url)) == Some(url)
  {
    var m := ImageMarkup(url);
    assert m[|ImagePrefix|..|m| - 1] == url;
  }
}
