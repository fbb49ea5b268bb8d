/**
 * The extractor of Steam library folders from the text of
 * `libraryfolders.vdf`: every trimmed line that mentions the key `"path"`
 * and has a fourth quote-separated field contributes that field, with its
 * backslashes turned into forward slashes.
 */
module SteamLibrary {
  import opened Wrappers
  import opened Text
  import opened Seqs

  /** The key a library-folder line must contain, quotes included. */
  const PathKey: string := "\"path\""

  /**
   * The two rewrites applied to a path read from the file: each escaped
   * separator (two backslashes) becomes one slash, then every remaining
   * backslash does. No backslash survives, and a path without one is kept.
   */
  function SlashPath(p: string): (r: string)
    ensures '\\' !in r
    ensures '\\' !in p ==> r == p
    ensures |r| <= |p|
  {
    ReplaceChar(CollapseDoubleBackslash(p), '\\', '/')
  }

  /**
   * What one line of the file contributes: the cleaned fourth field when the
   * trimmed line contains `"path"` and at least three quotes (so that
   * splitting on quotes gives at least four fields), and nothing otherwise.
   */
  function LineEntry(line: string): (r: Option<string>)
    ensures r.Some? ==> '\\' !in r.value
  {
    var t := TrimSpace(line);
    if Contains(t, PathKey) then
      var parts := Split(t, '"');
      if |parts| >= 4 then Some(SlashPath(parts[3])) else None
    else None
  }

  /** A line contributes exactly when its trimmed text contains `"path"` and at least three quotes. */
  lemma LineEntryShape(line: string)
    ensures LineEntry(line).Some? <==> Contains(TrimSpace(line), PathKey) && Count(TrimSpace(line), '"') >= 3
  {
    SplitParts(TrimSpace(line), '"');
  }

  /** The lines of the file that contribute a path, by index. */
  function EntryLines(lines: seq<string>): seq<nat> {
    Picks(lines, LineEntry)
  }

  /** The paths the file's content yields: the entries of its lines, in line order. */
  function LibraryPaths(content: string): seq<string> {
    Collect(Split(content, '\n'), LineEntry)
  }

  /**
   * `parseLibraryFolders` on the result of reading the file: a read error
   * gives no paths; otherwise the paths are those of the content's lines.
   */
  method ParseLibraryFolders(content: Option<string>) returns (paths: seq<string>)
    ensures content.None? ==> paths == []
    ensures content.Some? ==> paths == LibraryPaths(content.value)
  {
    paths := [];
    if content.None? {
      return;
    }
    var lines := Split(content.value, '\n');
    for i := 0 to |lines|
      invariant paths == Collect(lines[..i], LineEntry)
    {
      CollectPrefix(lines, i, LineEntry);
      var entry := LineEntry(lines[i]);
      if entry.Some? {
        paths := paths + [entry.value];
      }
    }
    assert lines[..|lines|] == lines;
  }

  /**
   * One path per contributing line and nothing from the others: the k-th path
   * is the entry of the k-th contributing line, so the paths keep line order.
   */
  lemma LibraryPathsByLine(content: string)
    ensures var lines := Split(content, '\n');
      |LibraryPaths(content)| == |EntryLines(lines)| &&
      forall k :: 0 <= k < |EntryLines(lines)| ==>
        LineEntry(lines[EntryLines(lines)[k]]) == Some(LibraryPaths(content)[k])
  {
    CollectAtPicks(Split(content, '\n'), LineEntry);
  }

  /** No path the extractor returns contains a backslash. */
  lemma LibraryPathsHaveNoBackslash(content: string)
    ensures forall k :: 0 <= k < |LibraryPaths(content)| ==> '\\' !in LibraryPaths(content)[k]
  {
    LibraryPathsByLine(content);
  }

  /**
   * A Windows path as the file stores it, its elements separated by escaped
   * separators (two backslashes each), comes out with one slash per separator.
   */
  lemma SlashEscapedSeparator(parts: seq<string>)
    requires forall k :: 0 <= k < |parts| ==> '\\' !in parts[k]
    ensures SlashPath(Join(parts, "\\\\")) == Join(parts, "/")
  {
    var collapsed := Join(parts, "/");
    CollapseJoin(parts);
    JoinAvoids(parts, "/", '\\');
    assert ReplaceChar(collapsed, '\\', '/') == collapsed;
  }

  /**
   * A path whose elements are separated by single backslashes comes out with
   * a slash for each of them (no inner element may be empty, or two
   * backslashes would stand together and form an escaped separator).
   */
  lemma SlashSingleSeparators(parts: seq<string>)
    requires forall k :: 0 <= k < |parts| ==> '\\' !in parts[k]
    requires forall k :: 0 < k < |parts| - 1 ==> parts[k] != ""
    ensures SlashPath(Join(parts, "\\")) == Join(parts, "/")
  {
    CollapseJoinLone(parts);
    ReplaceJoin(parts, '\\', '/');
  }

  /**
   * The shape of an entry line, `"path"<gap>"<value>"`, possibly indented and
   * followed by white space (a carriage return, say): the line contributes its
   * value, cleaned.
   */
  lemma EntryOfPathLine(indent: string, gap: string, value: string, trailer: string)
    requires AllSpace(indent) && AllSpace(trailer)
    requires '"' !in gap && '"' !in value
    ensures LineEntry(indent + PathKey + gap + "\"" + value + "\"" + trailer) == Some(SlashPath(value))
  {
    var u := gap + "\"" + value + "\"";
    var line := indent + PathKey + gap + "\"" + value + "\"" + trailer;
    assert line == indent + (PathKey + u) + trailer;
    TrimPathLine(indent, PathKey + u, trailer);
    ContainsInfix([], PathKey, u);
    assert [] + PathKey + u == PathKey + u;
    SplitPathLine(gap, value, u);
    LineEntryOfTrimmed(line, PathKey + u);
  }

  lemma LineEntryOfTrimmed(line: string, t: string)
    requires TrimSpace(line) == t && Contains(t, PathKey) && |Split(t, '"')| >= 4
    ensures LineEntry(line) == Some(SlashPath(Split(t, '"')[3]))
  {
  }

  lemma TrimPathLine(indent: string, t: string, trailer: string)
    requires AllSpace(indent) && AllSpace(trailer)
    requires |t| > 0 && t[0] == '"' && t[|t| - 1] == '"'
    ensures TrimSpace(indent + t + trailer) == t
  {
    TrimSpaceOfPadded(indent, t, trailer);
  }

  lemma SplitPathLine(gap: string, value: string, u: string)
    requires '"' !in gap && '"' !in value
    requires u == gap + "\"" + value + "\""
    ensures Split(PathKey + u, '"') == ["", "path", gap, value, ""]
  {
    var parts := ["", "path", gap, value, ""];
    assert Join(parts[3..], "\"") == value + "\"";
    assert Join(parts[2..], "\"") == u;
    assert Join(parts, "\"") == PathKey + u;
    SplitJoin(parts, '"');
  }
}
