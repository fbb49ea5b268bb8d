/**
 * The normalisation the program applies to what the operator types at
 * start-up: the answer to "Use this path? (Y/n)", the install path, the demo
 * file name and the map name. The lines typed are parameters; reading them
 * from standard input is not modelled.
 */
module Prompt {
  import opened Text

  /** The map used when the operator enters none. */
  const DefaultMap: string := "de_mirage"

  /** The extension every demo file name ends with. */
  const DemSuffix: string := ".dem"

  /** The answer, lower-cased and trimmed, is `n` or `no`: the detected path is refused. */
  predicate Declines(response: string) {
    var a := TrimSpace(Lower(response));
    a == "n" || a == "no"
  }

  /**
   * Exactly the answers `n` and `no`, in any letter case and with any white
   * space around them, refuse the path; everything else (an empty line, `y`,
   * `nope`) accepts it.
   */
  lemma {:induction false} DeclinesExactly(response: string)
    ensures Declines(response) <==> TrimSpace(response) in {"n", "N", "no", "No", "nO", "NO"}
  {
    LowerTrimSpace(response);
    LowerIsNo(TrimSpace(response));
  }

  lemma LowerIsNo(t: string)
    ensures Lower(t) == "n" <==> t in {"n", "N"}
    ensures Lower(t) == "no" <==> t in {"no", "No", "nO", "NO"}
  {
    if |t| == 1 {
      LowerCharIs(t[0], 'n', 'N');
      assert t == [t[0]];
    } else if |t| == 2 {
      LowerCharIs(t[0], 'n', 'N');
      LowerCharIs(t[1], 'o', 'O');
      assert t == [t[0], t[1]];
      assert Lower(t) == [LowerChar(t[0]), LowerChar(t[1])];
    }
  }

  lemma LowerCharIs(c: char, lower: char, upper: char)
    requires 'a' <= lower <= 'z' && upper as int == lower as int - 32
    ensures LowerChar(c) == lower <==> c == lower || c == upper
  {
  }

  /**
   * The install path the program settles on: the detected path unless the
   * operator declines it or none was detected, in which case the trimmed
   * manual entry; then backslashes become slashes and quotes are dropped.
   */
  function InstallPath(detected: string, answer: string, manual: string): (r: string)
    ensures '\\' !in r && '"' !in r
    ensures detected != "" && !Declines(answer) ==> r == CleanPath(detected)
    ensures detected == "" || Declines(answer) ==> r == CleanPath(TrimSpace(manual))
  {
    var kept := if detected != "" && Declines(answer) then "" else detected;
    var chosen := if kept == "" then TrimSpace(manual) else kept;
    CleanPath(chosen)
  }

  /**
   * The clean-up of the chosen install path: every backslash becomes a
   * slash and every quote is dropped, so neither is left; only the quotes
   * are lost, and a path that has neither is kept as it is.
   */
  function CleanPath(p: string): (r: string)
    ensures '\\' !in r && '"' !in r
    ensures |r| == |p| - Count(p, '"')
    ensures '\\' !in p && '"' !in p ==> r == p
  {
    var slashed := ReplaceChar(p, '\\', '/');
    ReplaceCharCount(p, '\\', '/', '"');
    RemoveChar(slashed, '"')
  }

  /** Cleaning an already clean path changes nothing. */
  lemma CleanPathIdempotent(p: string)
    ensures CleanPath(CleanPath(p)) == CleanPath(p)
  {
  }

  /** `strings.HasSuffix(strings.ToLower(t), ".dem")`. */
  predicate HasDemSuffix(t: string) {
    |t| >= 4 && Lower(t)[|t| - 4..] == DemSuffix
  }

  /** A name has the extension exactly when it ends in a dot and `d`, `e`, `m` in either case. */
  lemma DemSuffixCases(t: string)
    ensures HasDemSuffix(t) <==>
      (|t| >= 4 && t[|t| - 4] == '.' && t[|t| - 3] in {'d', 'D'} && t[|t| - 2] in {'e', 'E'} && t[|t| - 1] in {'m', 'M'})
  {
    if |t| >= 4 {
      var n := |t|;
      LowerCharIs(t[n - 3], 'd', 'D');
      LowerCharIs(t[n - 2], 'e', 'E');
      LowerCharIs(t[n - 1], 'm', 'M');
      assert Lower(t)[n - 4..] == [LowerChar(t[n - 4]), LowerChar(t[n - 3]), LowerChar(t[n - 2]), LowerChar(t[n - 1])];
    }
  }

  /**
   * The extension rule: `.dem` is appended unless the name already ends with it in
   * some letter case; the result always ends with it.
   */
  function AddDemSuffix(t: string): (r: string)
    ensures HasDemSuffix(r)
    ensures HasDemSuffix(t) ==> r == t
    ensures !HasDemSuffix(t) ==> r == t + DemSuffix
  {
    if HasDemSuffix(t) then t
    else
      var r := t + DemSuffix;
      assert Lower(r)[|r| - 4..] == DemSuffix by {
        assert forall k :: 0 <= k < 4 ==> Lower(r)[|t| + k] == LowerChar(DemSuffix[k]) == DemSuffix[k];
      }
      r
  }

  /** The demo file name the operator typed, trimmed and given its extension. */
  function DemoFileName(line: string): (r: string)
    ensures HasDemSuffix(r)
  {
    AddDemSuffix(TrimSpace(line))
  }

  /** The demo file name has no white space at either end. */
  lemma DemoFileNameTrimmed(line: string)
    ensures TrimSpace(DemoFileName(line)) == DemoFileName(line)
  {
    var t := TrimSpace(line);
    if HasDemSuffix(t) {
      TrimSpaceIdempotent(line);
    } else {
      TrimSpaceWithSuffix(t);
    }
  }

  lemma TrimSpaceWithSuffix(t: string)
    requires t == [] || !IsSpace(t[0])
    ensures TrimSpace(t + DemSuffix) == t + DemSuffix
  {
    var r := t + DemSuffix;
    assert r[|r| - 1] == 'm';
    assert r[0] == if t == [] then '.' else t[0];
    TrimSpaceOfTrimmed(r);
  }

  /** Applying the demo-name rule to its own result changes nothing. */
  lemma DemoFileNameIdempotent(line: string)
    ensures DemoFileName(DemoFileName(line)) == DemoFileName(line)
  {
    DemoFileNameTrimmed(line);
  }

  /** Windows' `os.IsPathSeparator`: both slashes separate path elements. */
  predicate IsSeparator(c: char) {
    c == '\\' || c == '/'
  }

  /**
   * Whether joining puts a `\` between the directory and the name: not when
   * either is empty, and not after a drive colon (`C:` and `radar.dem` give
   * the drive-relative `C:radar.dem`) or a separator that is already there.
   */
  predicate AddsSeparator(dir: string, name: string) {
    dir != "" && name != "" && dir[|dir| - 1] != ':' && !IsSeparator(dir[|dir| - 1])
  }

  /**
   * The joining step of `filepath.Join` on Windows: the directory, a `\`
   * when one is needed, then the name.
   */
  function JoinElements(dir: string, name: string): (r: string)
    ensures |r| == |dir| + |name| + (if AddsSeparator(dir, name) then 1 else 0)
    ensures r[..|dir|] == dir && r[|r| - |name|..] == name
    ensures AddsSeparator(dir, name) ==> r[|dir|] == '\\'
  {
    if AddsSeparator(dir, name) then dir + "\\" + name else dir + name
  }

  /** `filepath.FromSlash` on Windows: every `/` becomes `\`. */
  function FromSlash(p: string): string {
    ReplaceChar(p, '/', '\\')
  }

  /**
   * `filepath.Join(dir, name)` on Windows: the joined elements, with the one
   * rewrite of `filepath.Clean` that applies to every path, turning each `/`
   * into `\`.
   */
  function JoinPath(dir: string, name: string): (r: string)
    ensures '/' !in r
    ensures AddsSeparator(dir, name) ==> r == FromSlash(dir) + "\\" + FromSlash(name)
    ensures !AddsSeparator(dir, name) ==> r == FromSlash(dir) + FromSlash(name)
  {
    FromSlashElements(dir, name);
    FromSlash(JoinElements(dir, name))
  }

  lemma FromSlashElements(dir: string, name: string)
    ensures FromSlash(JoinElements(dir, name)) == if AddsSeparator(dir, name) then FromSlash(dir) + "\\" + FromSlash(name)
      else FromSlash(dir) + FromSlash(name)
  {
    var joined := JoinElements(dir, name);
    if AddsSeparator(dir, name) {
      assert joined == (dir + "\\") + name;
      ReplaceCharConcat(dir + "\\", name, '/', '\\');
      ReplaceCharConcat(dir, "\\", '/', '\\');
    } else {
      assert joined == dir + name;
      ReplaceCharConcat(dir, name, '/', '\\');
    }
  }

  /** The elements of the joined path are the directory's followed by the name's. */
  lemma JoinPathElements(dir: string, name: string)
    requires AddsSeparator(dir, name)
    ensures Split(JoinPath(dir, name), '\\') == Split(FromSlash(dir), '\\') + Split(FromSlash(name), '\\')
  {
    SplitConcat(FromSlash(dir), '\\', FromSlash(name));
  }

  /** A file name without separators is the last element of the joined path. */
  lemma JoinPathLast(dir: string, name: string)
    requires AddsSeparator(dir, name) && '\\' !in name && '/' !in name
    ensures var parts := Split(JoinPath(dir, name), '\\'); parts[|parts| - 1] == name
  {
    JoinPathElements(dir, name);
    ReplaceCharAbsent(name, '/', '\\');
    SplitNoSeparator(name, '\\');
  }

  /** After a drive colon the name follows directly, so the path stays relative to that drive. */
  lemma JoinPathDrive(dir: string, name: string)
    requires dir != "" && dir[|dir| - 1] == ':'
    ensures JoinPath(dir, name) == FromSlash(dir) + FromSlash(name)
  {
  }

  /** The last four characters alone decide whether a name has the `.dem` extension. */
  lemma DemSuffixOfTail(x: string, y: string)
    requires |x| >= 4 && |y| >= 4 && x[|x| - 4..] == y[|y| - 4..]
    ensures HasDemSuffix(x) == HasDemSuffix(y)
  {
    forall j | |x| - 4 <= j < |x| ensures Lower(x)[j] == Lower(y)[j - |x| + |y|] {
      assert x[j] == x[|x| - 4..][j - |x| + 4] == y[|y| - 4..][j - |x| + 4] == y[j - |x| + |y|];
    }
    assert Lower(x)[|x| - 4..] == Lower(y)[|y| - 4..];
  }

  /** None of the last four characters of a `.dem` name is a separator. */
  lemma DemSuffixNoSeparator(x: string)
    requires HasDemSuffix(x)
    ensures forall k :: |x| - 4 <= k < |x| ==> !IsSeparator(x[k])
  {
    forall k | |x| - 4 <= k < |x| ensures !IsSeparator(x[k]) {
      var c := Lower(x)[|x| - 4..][k - |x| + 4];
      assert c == Lower(x)[k] == LowerChar(x[k]);
      assert c in {'.', 'd', 'e', 'm'};
    }
  }

  /** Rewriting a separator leaves the `.dem` extension alone. */
  lemma DemSuffixReplace(x: string, a: char, b: char)
    requires HasDemSuffix(x) && IsSeparator(a)
    ensures HasDemSuffix(ReplaceChar(x, a, b))
  {
    var r := ReplaceChar(x, a, b);
    DemSuffixNoSeparator(x);
    var rt, xt := r[|r| - 4..], x[|x| - 4..];
    forall j | 0 <= j < 4 ensures rt[j] == xt[j] {
      assert r[|x| - 4 + j] == x[|x| - 4 + j];
    }
    assert rt == xt;
    DemSuffixOfTail(r, x);
  }

  /**
   * The watched demo path: the install path and the name joined, with its
   * backslashes turned into slashes. It holds no backslash, and when the name
   * ends with `.dem` so does the path.
   */
  function DemoPath(install: string, name: string): (r: string)
    ensures '\\' !in r
    ensures HasDemSuffix(name) ==> HasDemSuffix(r)
  {
    var r := ReplaceChar(JoinPath(install, name), '\\', '/');
    assert HasDemSuffix(name) ==> HasDemSuffix(r) by {
      if HasDemSuffix(name) {
        JoinPathSuffix(install, name);
        DemSuffixReplace(JoinPath(install, name), '\\', '/');
      }
    }
    r
  }

  /** Joining keeps the name's `.dem` extension. */
  lemma JoinPathSuffix(install: string, name: string)
    requires HasDemSuffix(name)
    ensures HasDemSuffix(JoinPath(install, name))
  {
    var joined := JoinElements(install, name);
    assert joined[|joined| - 4..] == joined[|joined| - |name|..][|name| - 4..];
    DemSuffixOfTail(joined, name);
    DemSuffixReplace(joined, '/', '\\');
  }

  /**
   * The backslashes the join puts in are undone: the watched path is the
   * joined elements with every separator, of either kind, written as `/`.
   */
  lemma DemoPathSlashes(install: string, name: string)
    ensures DemoPath(install, name) == ReplaceChar(JoinElements(install, name), '\\', '/')
  {
    var j := JoinElements(install, name);
    var r, t := DemoPath(install, name), ReplaceChar(j, '\\', '/');
    assert forall k :: 0 <= k < |j| ==> r[k] == t[k];
  }

  /** The demo path the program watches ends with `.dem` and uses only forward slashes. */
  lemma WatchedDemoPath(install: string, line: string)
    ensures '\\' !in DemoPath(install, DemoFileName(line))
    ensures HasDemSuffix(DemoPath(install, DemoFileName(line)))
  {
    var name := DemoFileName(line);
    assert HasDemSuffix(name);
  }

  /**
   * The map name: the trimmed entry, or `de_mirage` when only white space
   * was typed.
   */
  function MapName(line: string): (r: string)
    ensures r != ""
    ensures AllSpace(line) ==> r == DefaultMap
    ensures !AllSpace(line) ==> r == TrimSpace(line)
  {
    var m := TrimSpace(line);
    if m == "" then DefaultMap else m
  }

  /** Feeding the chosen map name back through the rule keeps it. */
  lemma MapNameIdempotent(line: string)
    ensures MapName(MapName(line)) == MapName(line)
  {
    var m := TrimSpace(line);
    if m == "" {
      TrimSpaceOfPadded([], DefaultMap, []);
      assert [] + DefaultMap + [] == DefaultMap;
    } else {
      TrimSpaceIdempotent(line);
    }
  }
}
