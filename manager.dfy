/** The version operations of `VersionManager` over a directory snapshot:
    reading and validating the version file, extracting a version from a
    target file, comparing the two, rewriting the target's version line,
    bumping, and the release sequence. A user-supplied `version_pattern` is a
    predicate on one '\n'-free line (what `re.match` decides for it). */
module Manager {
  import opened Wrappers
  import opened Text
  import opened Scan
  import opened SemVer
  import opened FileTree
  import Patterns

  /** The failures the operations report (their messages reduced to the
      data they carry). */
  datatype Error =
    | ReadFailure(file: string)
    | InvalidFormat(text: string)
    | TargetUnreadable(file: string)
    | PatternNotFound(file: string)
    | InvalidBumpKind(kind: string)
    | ParseFailure(version: string)
    | GitMissing
    | DaggerModuleRefused
    | UnknownProjectType

  // ------------------------------------------------------------ validation

  /** `_validate_semver`: the stripped text must be digits.digits.digits;
      the error carries the stripped text. */
  function ValidateSemver(version: string): (r: Option<Error>)
    ensures r.None? <==> ParseVersion(Strip(version)).Some?
    ensures r.Some? ==> r.value == InvalidFormat(Strip(version))
  {
    if IsSemVer(Strip(version)) then None else Some(InvalidFormat(Strip(version)))
  }

  /** `_read_version_file`: the stripped content of the version file when it
      validates; a read failure when the file is missing. */
  function ReadVersionFile(t: Tree, versionFile: string): (r: Result<string, Error>)
    ensures r.Ok? ==> IsSemVer(r.value) && ParseVersion(r.value).Some?
    ensures r.Ok? <==> versionFile in t.files && IsSemVer(Strip(t.files[versionFile].content))
    ensures r.Ok? ==> r.value == Strip(t.files[versionFile].content)
    ensures versionFile !in t.files ==> r == Err(ReadFailure(versionFile))
    ensures versionFile in t.files && r.Err? ==> r.error == InvalidFormat(Strip(t.files[versionFile].content))
  {
    if versionFile !in t.files then Err(ReadFailure(versionFile))
    else
      var version := Strip(t.files[versionFile].content);
      StripIdempotent(t.files[versionFile].content);
      match ValidateSemver(version)
      case Some(e) => Err(e)
      case None => Ok(version)
  }

  /** A version with whitespace around it validates: the whitespace is
      stripped (`"  1.0.0  "`, `"\n1.0.0\n"`). */
  lemma ValidatePadded(pre: string, x: string, post: string)
    requires AllSpace(pre) && AllSpace(post) && IsSemVer(x)
    ensures ValidateSemver(pre + x + post).None?
  {
    SemVerShape(x);
    StripPadded(pre, x, post);
  }

  /** A text without surrounding whitespace that is not a version is
      rejected with the text itself as the offending text. Together with
      `NotSemVerDots` and `NotSemVerChar` this rejects `"1.0"`, `"1"`,
      `"1.0.0.0"`, `"v1.0.0"`, `"1.0.0-alpha"`, `"1.0.0+build"` and `"1.0.x"`. */
  lemma RejectsAsIs(x: string)
    requires |x| > 0 && !IsSpace(x[0]) && !IsSpace(x[|x| - 1]) && !IsSemVer(x)
    ensures ValidateSemver(x) == Some(InvalidFormat(x))
  {
    StripPadded("", x, "");
    assert "" + x + "" == x;
  }

  // ------------------------------------------------------------ extraction

  /** Some line the extractor would take a version from. */
  predicate Yields(line: string, pattern: string -> bool)
  {
    pattern(line) && Search(line).Some?
  }

  /** No line is one the extractor would take a version from. */
  predicate NoneYields(lines: seq<string>, pattern: string -> bool)
  {
    forall j :: 0 <= j < |lines| ==> !Yields(lines[j], pattern)
  }

  /** The scan of `_extract_version_from_target`: a matching line without an
      X.Y.Z is passed over and the scan goes on. */
  function ExtractLines(lines: seq<string>, pattern: string -> bool): (r: Option<string>)
    ensures r.None? <==> NoneYields(lines, pattern)
    ensures r.Some? ==> IsSemVer(r.value)
  {
    if lines == [] then None
    else if pattern(lines[0]) && FindVersion(lines[0]).Some? then FindVersion(lines[0])
    else
      NoneYieldsCons(lines, pattern);
      ExtractLines(lines[1..], pattern)
  }

  /** Nothing yields in a list exactly when nothing yields in its head and
      in its tail. */
  lemma NoneYieldsCons(lines: seq<string>, pattern: string -> bool)
    requires lines != []
    ensures NoneYields(lines, pattern) <==> !Yields(lines[0], pattern) && NoneYields(lines[1..], pattern)
  {
    assert forall j :: 1 <= j < |lines| ==> lines[1..][j - 1] == lines[j];
  }

  /** The version taken is the leftmost X.Y.Z of the first line that both
      matches and carries one. */
  lemma {:induction false} ExtractFirst(lines: seq<string>, pattern: string -> bool, i: nat)
    requires i < |lines| && Yields(lines[i], pattern)
    requires forall j :: 0 <= j < i ==> !Yields(lines[j], pattern)
    ensures ExtractLines(lines, pattern) == FindVersion(lines[i])
  {
    if i > 0 {
      TailShift(lines, i);
      ExtractFirst(lines[1..], pattern, i - 1);
    }
  }

  /** `_extract_version_from_target` on the whole content. */
  function ExtractVersion(content: string, pattern: string -> bool): (r: Option<string>)
    ensures r.None? <==> NoneYields(Split(content, '\n'), pattern)
    ensures r.Some? ==> IsSemVer(r.value)
  {
    ExtractLines(Split(content, '\n'), pattern)
  }

  // ------------------------------------------------------------ comparison

  /** The five outcomes of `validate_version`. */
  datatype Verdict =
    | ReadError(error: Error)
    | TargetMissing(file: string)
    | VersionNotFound(file: string)
    | Consistent(version: string)
    | Mismatch(source: string, target: string)

  /** `validate_version`: compare the version file with the version taken
      from the target file, by string equality. */
  function ValidateVersion(t: Tree, versionFile: string, targetFile: string, pattern: string -> bool): (r: Verdict)
    ensures r.ReadError? <==> ReadVersionFile(t, versionFile).Err?
    ensures r.TargetMissing? <==> ReadVersionFile(t, versionFile).Ok? && targetFile !in t.files
    ensures r.Consistent? <==>
      ReadVersionFile(t, versionFile).Ok? && targetFile in t.files &&
      ExtractVersion(t.files[targetFile].content, pattern) == Some(ReadVersionFile(t, versionFile).value)
    ensures r.Consistent? ==> IsSemVer(r.version)
    ensures r.VersionNotFound? <==>
      ReadVersionFile(t, versionFile).Ok? && targetFile in t.files &&
      ExtractVersion(t.files[targetFile].content, pattern).None?
    ensures r.TargetMissing? ==> r.file == targetFile
    ensures r.VersionNotFound? ==> r.file == targetFile
    ensures r.ReadError? ==> r.error == ReadVersionFile(t, versionFile).error
    ensures r.Consistent? ==> r.version == ReadVersionFile(t, versionFile).value
    ensures r.Mismatch? ==>
      r.source == ReadVersionFile(t, versionFile).value && targetFile in t.files &&
      ExtractVersion(t.files[targetFile].content, pattern) == Some(r.target)
    ensures r.Mismatch? ==> r.source != r.target && IsSemVer(r.source) && IsSemVer(r.target)
  {
    match ReadVersionFile(t, versionFile)
    case Err(e) => ReadError(e)
    case Ok(source) =>
      if targetFile !in t.files then TargetMissing(targetFile)
      else
        match ExtractVersion(t.files[targetFile].content, pattern)
        case None => VersionNotFound(targetFile)
        case Some(target) =>
          if source == target then Consistent(source) else Mismatch(source, target)
  }

  // ------------------------------------------------------------ bumping

  /** `_bump_version_logic`: the kind is checked first and case-sensitively,
      then the version is parsed as three integers. */
  function BumpVersionLogic(version: string, kind: string): (r: Result<string, Error>)
    ensures KindOf(kind).None? ==> r == Err(InvalidBumpKind(kind))
    ensures KindOf(kind).Some? ==> (r.Ok? <==> IsSemVer(version))
    ensures KindOf(kind).Some? && !IsSemVer(version) ==> r == Err(ParseFailure(version))
    ensures r.Ok? ==> IsSemVer(r.value)
    ensures r.Ok? ==> r.value == Print(Bump(ParseVersion(version).value, KindOf(kind).value))
    ensures r.Ok? ==> ParseVersion(r.value) == Some(Bump(ParseVersion(version).value, KindOf(kind).value))
    ensures r.Ok? ==> Less(ParseVersion(version).value, ParseVersion(r.value).value)
  {
    match KindOf(kind)
    case None => Err(InvalidBumpKind(kind))
    case Some(k) =>
      match ParseVersion(version)
      case None => Err(ParseFailure(version))
      case Some(v) =>
        PrintParse(Bump(v, k));
        Ok(Print(Bump(v, k)))
  }

  /** A validated version is its own stripped text. */
  lemma StripVersion(x: string)
    requires IsSemVer(x)
    ensures Strip(x) == x
  {
    SemVerShape(x);
    StripPadded("", x, "");
    assert "" + x + "" == x;
  }

  /** `bump_version`: read the version file, bump by the lower-cased kind,
      and write the new version back with no trailing newline. */
  function BumpVersion(t: Tree, versionFile: string, kind: string): (r: Result<Tree, Error>)
    ensures ReadVersionFile(t, versionFile).Err? ==> r == Err(ReadVersionFile(t, versionFile).error)
    ensures r.Ok? <==> ReadVersionFile(t, versionFile).Ok? && KindOf(Lower(kind)).Some?
    ensures r.Ok? ==> versionFile in r.value.files && r.value.dirs == t.dirs
    ensures r.Ok? ==>
              r.value.files[versionFile] ==
              File(Print(Bump(ParseVersion(ReadVersionFile(t, versionFile).value).value, KindOf(Lower(kind)).value)),
                   DefaultMode)
    ensures r.Ok? ==> ReadVersionFile(r.value, versionFile) == Ok(r.value.files[versionFile].content)
    ensures r.Ok? ==>
      Less(ParseVersion(ReadVersionFile(t, versionFile).value).value,
           ParseVersion(ReadVersionFile(r.value, versionFile).value).value)
    ensures r.Ok? ==> forall p :: p != versionFile ==>
      (p in r.value.files <==> p in t.files) && (p in t.files ==> r.value.files[p] == t.files[p])
    ensures r.Err? && ReadVersionFile(t, versionFile).Ok? ==> r.error == InvalidBumpKind(Lower(kind))
  {
    match ReadVersionFile(t, versionFile)
    case Err(e) => Err(e)
    case Ok(current) =>
      match BumpVersionLogic(current, Lower(kind))
      case Err(e) => Err(e)
      case Ok(next) =>
        var u := WithNewFile(t, versionFile, next, DefaultMode);
        ReadWritten(t, versionFile, next, DefaultMode);
        assert u.files[versionFile].content == next;
        Ok(u)
  }

  /** Writing a version into a file and reading it back gives the version. */
  lemma ReadWritten(t: Tree, versionFile: string, version: string, mode: nat)
    requires IsSemVer(version)
    ensures ReadVersionFile(WithNewFile(t, versionFile, version, mode), versionFile) == Ok(version)
  {
    StripVersion(version);
  }

  /** The helper's kind check is case-sensitive: `"Major"` is rejected
      before the version is looked at. */
  lemma HelperKindCaseSensitive(version: string)
    ensures BumpVersionLogic(version, "Major") == Err(InvalidBumpKind("Major"))
  {
    assert "Major" != "major";
  }

  /** The public operation lower-cases the kind first, so `"Major"` bumps. */
  lemma PublicKindLowered(t: Tree, versionFile: string)
    requires ReadVersionFile(t, versionFile).Ok?
    ensures BumpVersion(t, versionFile, "Major").Ok?
  {
    LowerMajor();
  }

  lemma LowerMajor()
    ensures KindOf(Lower("Major")) == Some(Major)
  {
    assert Lower("Major") == "major";
  }

  /** After a bump, reading the version file gives the bumped version:
      each kind changes its component by one and resets the lower ones. */
  lemma BumpThenRead(t: Tree, versionFile: string, kind: string)
    requires BumpVersion(t, versionFile, kind).Ok?
    ensures var before := ParseVersion(ReadVersionFile(t, versionFile).value).value;
            var now := ParseVersion(ReadVersionFile(BumpVersion(t, versionFile, kind).value, versionFile).value).value;
            now == Bump(before, KindOf(Lower(kind)).value)
  {
  }

  // ------------------------------------------------------------ rewriting

  /** The text of the YAML template line. */
  function YamlLine(version: string): string { "version: " + version }

  /** The text of the TOML template line. */
  function TomlLine(version: string): string { "version = \"" + version + "\"" }

  /** The text of the Dockerfile template line. */
  function DockerLine(version: string): string { "LABEL version=\"" + version + "\"" }

  /** The new text of the first matching line, chosen by what the old line
      contains, in the source's order of tests. */
  function RewriteLine(line: string, version: string): (r: string)
    ensures version != [] ==> (r == [] <==> line == [])
  {
    if Contains(line, "version:") then YamlLine(version)
    else if Contains(line, "version =") || Contains(line, "version=") then TomlLine(version)
    else if Contains(line, "LABEL version=") then DockerLine(version)
    else SubAll(line, version)
  }

  /** A line that a rewrite turns into a line carrying the new version: it
      names a version key or already holds an X.Y.Z. */
  predicate CarriesVersion(line: string)
  {
    Contains(line, "version:") || Contains(line, "version =") || Contains(line, "version=") || Search(line).Some?
  }

  /** Every line holding `LABEL version=` also holds `version=`. */
  lemma LabelHasKey(line: string)
    requires Contains(line, "LABEL version=")
    ensures Contains(line, "version=")
  {
    var w := "LABEL version=";
    assert w[6..] == "version=";
    LabelHasKeyAt(line, w);
  }

  lemma {:induction false} LabelHasKeyAt(line: string, w: string)
    requires |w| == 14 && w[6..] == "version=" && Contains(line, w)
    ensures Contains(line, "version=")
  {
    if IsPrefix(w, line) {
      assert line[6..][..8] == "version=";
      ContainsSuffix(line, 6, "version=");
    } else {
      LabelHasKeyAt(line[1..], w);
      ContainsSuffix(line, 1, "version=");
    }
  }

  /** The Dockerfile branch is unreachable: no line is ever rewritten to
      the `LABEL version="V"` template. */
  lemma DockerBranchDead(line: string, version: string)
    requires IsSemVer(version)
    ensures RewriteLine(line, version) != DockerLine(version)
  {
    if Contains(line, "LABEL version=") {
      LabelHasKey(line);
    }
    DockerLineShape(version);
    if !Contains(line, "version:") && !Contains(line, "version =") && !Contains(line, "version=") {
      SemVerShape(version);
      KeyFree(line, version);
    }
  }

  /** The Dockerfile template starts with `L`, unlike the other two, and
      holds `version=`. */
  lemma DockerLineShape(version: string)
    ensures DockerLine(version)[0] == 'L' && YamlLine(version)[0] == 'v' && TomlLine(version)[0] == 'v'
    ensures Contains(DockerLine(version), "version=")
  {
    assert DockerLine(version) == "LABEL " + "version=" + ("\"" + version + "\"");
    ContainsAt("LABEL ", "version=", "\"" + version + "\"");
  }

  /** A generic replacement introduces none of the keys the rewrite tests. */
  lemma KeyFree(line: string, version: string)
    requires |version| > 0 && forall k :: 0 <= k < |version| ==> IsVersionChar(version[k])
    ensures Contains(SubAll(line, version), "version:") ==> Contains(line, "version:")
    ensures Contains(SubAll(line, version), "version =") ==> Contains(line, "version =")
    ensures Contains(SubAll(line, version), "version=") ==> Contains(line, "version=")
    ensures Contains(SubAll(line, version), "LABEL version=") ==> Contains(line, "LABEL version=")
  {
    if Contains(SubAll(line, version), "version:") {
      ContainsSubAll(line, version, "version:");
    }
    if Contains(SubAll(line, version), "version =") {
      ContainsSubAll(line, version, "version =");
    }
    if Contains(SubAll(line, version), "version=") {
      ContainsSubAll(line, version, "version=");
    }
    if Contains(SubAll(line, version), "LABEL version=") {
      ContainsSubAll(line, version, "LABEL version=");
    }
  }

  /** A rewritten line that carried a version key or an X.Y.Z yields exactly
      the new version to the extractor. */
  lemma RewriteFinds(line: string, version: string)
    requires IsSemVer(version) && CarriesVersion(line)
    ensures FindVersion(RewriteLine(line, version)) == Some(version)
  {
    if Contains(line, "version:") {
      FindAfterNonDigits("version: ", version, "");
      assert "version: " + version + "" == YamlLine(version);
    } else if Contains(line, "version =") || Contains(line, "version=") {
      FindAfterNonDigits("version = \"", version, "\"");
    } else {
      if Contains(line, "LABEL version=") {
        LabelHasKey(line);
      }
      FindAfterSubAll(line, version);
    }
  }

  /** A line with neither a version key nor an X.Y.Z is left as it is. */
  lemma RewriteKeepsPlain(line: string, version: string)
    requires !CarriesVersion(line)
    ensures RewriteLine(line, version) == line
  {
    if Contains(line, "LABEL version=") {
      LabelHasKey(line);
    }
    SubAllNoMatch(line, version);
  }

  /** The colon, which no version holds, is absent from the TOML template. */
  lemma TomlLineKeys(version: string)
    requires forall k :: 0 <= k < |version| ==> IsVersionChar(version[k])
    ensures !Contains(TomlLine(version), "version:")
    ensures Contains(TomlLine(version), "version =")
  {
    var l := TomlLine(version);
    if Contains(l, "version:") {
      ContainsChars(l, "version:", 7);
    }
    ContainsAt("", "version =", " \"" + version + "\"");
    assert l == "" + "version =" + (" \"" + version + "\"");
  }

  /** Rewriting a rewritten line changes nothing. */
  lemma RewriteIdempotent(line: string, version: string)
    requires IsSemVer(version)
    ensures RewriteLine(RewriteLine(line, version), version) == RewriteLine(line, version)
  {
    SemVerShape(version);
    if Contains(line, "version:") {
      ContainsAt("", "version:", " " + version);
      assert YamlLine(version) == "" + "version:" + (" " + version);
    } else if Contains(line, "version =") || Contains(line, "version=") {
      TomlLineKeys(version);
    } else {
      if Contains(line, "LABEL version=") {
        LabelHasKey(line);
      }
      KeyFree(line, version);
      SubAllIdempotent(line, version);
    }
  }

  /** A rewritten line holds no line break when neither input does. */
  lemma RewriteNoNewline(line: string, version: string)
    requires '\n' !in line && '\n' !in version
    ensures '\n' !in RewriteLine(line, version)
  {
    if !Contains(line, "version:") && !Contains(line, "version =") && !Contains(line, "version=") {
      if Contains(line, "LABEL version=") {
        LabelHasKey(line);
      }
      if '\n' in SubAll(line, version) {
        SubAllChars(line, version, '\n');
      }
    }
  }

  /** The empty line, which a trailing '\n' leaves at the end of a split, is
      rewritten to itself. */
  lemma RewriteEmpty(version: string)
    ensures RewriteLine("", version) == ""
  {
  }

  /** A line the Dockerfile pattern accepts is rewritten to the TOML
      template, which that pattern no longer accepts. */
  lemma DockerLabelBroken(line: string, version: string)
    requires Patterns.Accepts(Patterns.DockerLabel, line)
    ensures !Contains(line, "version:") ==> RewriteLine(line, version) == TomlLine(version)
    ensures !Patterns.Accepts(Patterns.DockerLabel, RewriteLine(line, version))
  {
    assert line[..15] == "LABEL version=\"";
    assert line[..15][6..14] == "version=";
    assert line[6..][..8] == "version=";
    ContainsSuffix(line, 6, "version=");
    var r := RewriteLine(line, version);
    assert r[0] == 'v';
    if Patterns.Accepts(Patterns.DockerLabel, r) {
      Patterns.AcceptedHead(Patterns.DockerLabel, r);
    }
  }

  // ------------------------------------------------------------ syncing

  /** The index of the first line the pattern matches. */
  function FirstMatch(lines: seq<string>, pattern: string -> bool): (r: Option<nat>)
    ensures r.Some? ==> r.value < |lines| && pattern(lines[r.value])
    ensures r.Some? ==> forall j :: 0 <= j < r.value ==> !pattern(lines[j])
    ensures r.None? ==> forall j :: 0 <= j < |lines| ==> !pattern(lines[j])
  {
    if lines == [] then None
    else if pattern(lines[0]) then Some(0)
    else
      match FirstMatch(lines[1..], pattern)
      case None => None
      case Some(i) => Some(i + 1)
  }

  /** A matching line with no match before it is the first match. */
  lemma {:induction false} FirstMatchIs(lines: seq<string>, pattern: string -> bool, i: nat)
    requires i < |lines| && pattern(lines[i])
    requires forall j :: 0 <= j < i ==> !pattern(lines[j])
    ensures FirstMatch(lines, pattern) == Some(i)
  {
    if i > 0 {
      TailShift(lines, i);
      FirstMatchIs(lines[1..], pattern, i - 1);
    }
  }

  /** The rewrite of `sync_version` on the content of the target file:
      split on '\n', rewrite the first matching line, join back. None when
      no line matches. */
  function SyncText(content: string, version: string, pattern: string -> bool): (r: Option<string>)
    ensures r.None? <==> FirstMatch(Split(content, '\n'), pattern).None?
  {
    var lines := Split(content, '\n');
    match FirstMatch(lines, pattern)
    case None => None
    case Some(i) => Some(Join(lines[i := RewriteLine(lines[i], version)], '\n'))
  }

  /** The synced content splits into as many lines as before, all as before
      except the first matching one. */
  lemma SyncShape(content: string, version: string, pattern: string -> bool, i: nat)
    requires '\n' !in version
    requires FirstMatch(Split(content, '\n'), pattern) == Some(i)
    ensures SyncText(content, version, pattern).Some?
    ensures Split(SyncText(content, version, pattern).value, '\n')
         == Split(content, '\n')[i := RewriteLine(Split(content, '\n')[i], version)]
  {
    var lines := Split(content, '\n');
    RewriteNoNewline(lines[i], version);
    SplitJoin(lines[i := RewriteLine(lines[i], version)], '\n');
  }

  /** A non-empty line is never rewritten to the empty line. */
  lemma RewriteNonEmpty(line: string, version: string)
    requires line != [] && version != []
    ensures RewriteLine(line, version) != []
  {
  }

  /** Syncing keeps a trailing newline, and adds none. */
  lemma SyncKeepsTrailingNewline(content: string, version: string, pattern: string -> bool, i: nat)
    requires IsSemVer(version)
    requires FirstMatch(Split(content, '\n'), pattern) == Some(i)
    ensures var r := SyncText(content, version, pattern).value;
            (|r| > 0 && r[|r| - 1] == '\n') <==> (|content| > 0 && content[|content| - 1] == '\n')
  {
    var lines := Split(content, '\n');
    SyncTextAt(content, version, pattern, i);
    RewriteKeepsEnding(lines, i, version);
    JoinSplit(content, '\n');
  }

  /** Rewriting one line of a split keeps its joined text ending with a
      newline, or not. */
  lemma RewriteKeepsEnding(lines: seq<string>, i: nat, version: string)
    requires IsSemVer(version) && i < |lines|
    requires forall k :: 0 <= k < |lines| ==> '\n' !in lines[k]
    ensures var s, u := Join(lines, '\n'), Join(lines[i := RewriteLine(lines[i], version)], '\n');
            (|s| > 0 && s[|s| - 1] == '\n') <==> (|u| > 0 && u[|u| - 1] == '\n')
  {
    LastLineKept(lines, i, version);
    SameEnding(lines, lines[i := RewriteLine(lines[i], version)], '\n');
  }

  /** The synced text is the lines, with the first matching one rewritten,
      joined back. */
  lemma SyncTextAt(content: string, version: string, pattern: string -> bool, i: nat)
    requires FirstMatch(Split(content, '\n'), pattern) == Some(i)
    ensures var lines := Split(content, '\n');
            SyncText(content, version, pattern) == Some(Join(lines[i := RewriteLine(lines[i], version)], '\n'))
  {
  }

  /** Two splits of equal length whose last parts are both empty or both
      not join to texts that both end with the separator or both do not. */
  lemma SameEnding(xs: seq<string>, ys: seq<string>, c: char)
    requires |xs| == |ys| > 0
    requires forall k :: 0 <= k < |xs| ==> c !in xs[k]
    requires forall k :: 0 <= k < |ys| ==> c !in ys[k]
    requires xs[|xs| - 1] == [] <==> ys[|ys| - 1] == []
    ensures var s, u := Join(xs, c), Join(ys, c);
            (|s| > 0 && s[|s| - 1] == c) <==> (|u| > 0 && u[|u| - 1] == c)
  {
    EndsWithSeparator(xs, c);
    EndsWithSeparator(ys, c);
  }

  /** Rewriting one line keeps every line free of '\n', and keeps the last
      line empty or not. */
  lemma LastLineKept(lines: seq<string>, i: nat, version: string)
    requires IsSemVer(version) && i < |lines|
    requires forall k :: 0 <= k < |lines| ==> '\n' !in lines[k]
    ensures var updated := lines[i := RewriteLine(lines[i], version)];
            (forall k :: 0 <= k < |updated| ==> '\n' !in updated[k]) &&
            (updated[|updated| - 1] == [] <==> lines[|lines| - 1] == [])
  {
    SemVerShape(version);
    RewriteNoNewline(lines[i], version);
    if i == |lines| - 1 {
      RewriteEmpty(version);
      if lines[i] != [] {
        RewriteNonEmpty(lines[i], version);
      }
    }
  }

  /** After a sync whose rewritten line still matches and carries the new
      version, the extractor reads back exactly that version. */
  lemma SyncThenExtract(content: string, version: string, pattern: string -> bool, i: nat)
    requires IsSemVer(version)
    requires FirstMatch(Split(content, '\n'), pattern) == Some(i)
    requires CarriesVersion(Split(content, '\n')[i])
    requires pattern(RewriteLine(Split(content, '\n')[i], version))
    ensures ExtractVersion(SyncText(content, version, pattern).value, pattern) == Some(version)
  {
    var lines := Split(content, '\n');
    var line := RewriteLine(lines[i], version);
    SemVerShape(version);
    SyncShape(content, version, pattern, i);
    RewriteFinds(lines[i], version);
    var updated := Split(SyncText(content, version, pattern).value, '\n');
    ExtractFirst(updated, pattern, i);
  }

  /** Under the same condition on the rewritten line (it still matches),
      syncing a synced text changes nothing. */
  lemma SyncIdempotent(content: string, version: string, pattern: string -> bool, i: nat)
    requires IsSemVer(version)
    requires FirstMatch(Split(content, '\n'), pattern) == Some(i)
    requires pattern(RewriteLine(Split(content, '\n')[i], version))
    ensures SyncText(SyncText(content, version, pattern).value, version, pattern)
         == SyncText(content, version, pattern)
  {
    var lines := Split(content, '\n');
    var synced := SyncText(content, version, pattern).value;
    SemVerShape(version);
    SyncShape(content, version, pattern, i);
    var updated := Split(synced, '\n');
    FirstMatchIs(updated, pattern, i);
    RewriteIdempotent(lines[i], version);
    assert updated[i := RewriteLine(updated[i], version)] == updated;
    JoinSplit(synced, '\n');
  }

  /** `sync_version` on a snapshot: read the version, read the target,
      rewrite its first matching line and write it back. */
  function SyncResult(t: Tree, versionFile: string, targetFile: string, pattern: string -> bool): (r: Result<Tree, Error>)
    ensures ReadVersionFile(t, versionFile).Err? ==> r == Err(ReadVersionFile(t, versionFile).error)
    ensures ReadVersionFile(t, versionFile).Ok? && targetFile !in t.files ==> r == Err(TargetUnreadable(targetFile))
    ensures r.Ok? <==>
      ReadVersionFile(t, versionFile).Ok? && targetFile in t.files &&
      FirstMatch(Split(t.files[targetFile].content, '\n'), pattern).Some?
    ensures r.Err? && ReadVersionFile(t, versionFile).Ok? && targetFile in t.files ==> r.error == PatternNotFound(targetFile)
    ensures r.Ok? ==> r.value.dirs == t.dirs && forall p :: p != targetFile ==>
      (p in r.value.files <==> p in t.files) && (p in t.files ==> r.value.files[p] == t.files[p])
  {
    match ReadVersionFile(t, versionFile)
    case Err(e) => Err(e)
    case Ok(version) =>
      if targetFile !in t.files then Err(TargetUnreadable(targetFile))
      else
        match SyncText(t.files[targetFile].content, version, pattern)
        case None => Err(PatternNotFound(targetFile))
        case Some(content) => Ok(WithNewFile(t, targetFile, content, DefaultMode))
  }

  /** `sync_version`, step by step: read the version, read the target, run
      the line loop and write the joined lines back. */
  method SyncVersion(t: Tree, versionFile: string, targetFile: string, pattern: string -> bool)
    returns (r: Result<Tree, Error>)
    ensures r == SyncResult(t, versionFile, targetFile, pattern)
  {
    var source := ReadVersionFile(t, versionFile);
    if source.Err? {
      return Err(source.error);
    }
    if targetFile !in t.files {
      return Err(TargetUnreadable(targetFile));
    }
    var lines := Split(t.files[targetFile].content, '\n');
    var rewritten, updated := RewriteFirst(lines, source.value, pattern);
    if !updated {
      return Err(PatternNotFound(targetFile));
    }
    SyncResultAt(t, versionFile, targetFile, pattern, FirstMatch(lines, pattern).value);
    r := Ok(WithNewFile(t, targetFile, Join(rewritten, '\n'), DefaultMode));
  }

  /** The line loop of `sync_version`: the list is updated in place at the
      first index the pattern matches, and the `updated` flag records that
      a line was rewritten. */
  method RewriteFirst(lines: seq<string>, version: string, pattern: string -> bool)
    returns (rewritten: seq<string>, updated: bool)
    ensures updated <==> FirstMatch(lines, pattern).Some?
    ensures !updated ==> rewritten == lines
    ensures updated ==> var i := FirstMatch(lines, pattern).value;
                        rewritten == lines[i := RewriteLine(lines[i], version)]
  {
    rewritten := lines;
    updated := false;
    var i := 0;
    while i < |rewritten|
      invariant 0 <= i <= |rewritten| && rewritten == lines && !updated
      invariant forall j :: 0 <= j < i ==> !pattern(lines[j])
    {
      if pattern(rewritten[i]) {
        FirstMatchIs(lines, pattern, i);
        rewritten := rewritten[i := RewriteLine(rewritten[i], version)];
        updated := true;
        break;
      }
      i := i + 1;
    }
  }

  /** A sync that finds its first matching line at `i` writes back the
      lines with that one rewritten. */
  lemma SyncResultAt(t: Tree, versionFile: string, targetFile: string, pattern: string -> bool, i: nat)
    requires ReadVersionFile(t, versionFile).Ok? && targetFile in t.files
    requires FirstMatch(Split(t.files[targetFile].content, '\n'), pattern) == Some(i)
    ensures var lines := Split(t.files[targetFile].content, '\n');
            SyncResult(t, versionFile, targetFile, pattern) ==
            Ok(WithNewFile(t, targetFile,
                           Join(lines[i := RewriteLine(lines[i], ReadVersionFile(t, versionFile).value)], '\n'),
                           DefaultMode))
  {
  }

  /** With distinct version and target files, a sync whose rewritten line
      still matches and carries the version leaves the two consistent. */
  lemma SyncThenValidate(t: Tree, versionFile: string, targetFile: string, pattern: string -> bool, i: nat)
    requires versionFile != targetFile
    requires ReadVersionFile(t, versionFile).Ok? && targetFile in t.files
    requires FirstMatch(Split(t.files[targetFile].content, '\n'), pattern) == Some(i)
    requires CarriesVersion(Split(t.files[targetFile].content, '\n')[i])
    requires pattern(RewriteLine(Split(t.files[targetFile].content, '\n')[i], ReadVersionFile(t, versionFile).value))
    ensures SyncResult(t, versionFile, targetFile, pattern).Ok?
    ensures ValidateVersion(SyncResult(t, versionFile, targetFile, pattern).value, versionFile, targetFile, pattern)
         == Consistent(ReadVersionFile(t, versionFile).value)
  {
    var version := ReadVersionFile(t, versionFile).value;
    var content := t.files[targetFile].content;
    SyncThenExtract(content, version, pattern, i);
    var u := SyncResult(t, versionFile, targetFile, pattern).value;
    assert u.files[versionFile] == t.files[versionFile];
    assert u.files[targetFile].content == SyncText(content, version, pattern).value;
  }

  /** Under the default pattern `^version:.*$`, every matched line is
      rewritten to `version: V`, which the pattern matches again: a sync
      always leaves the files consistent. */
  lemma YamlSyncThenValidate(t: Tree, versionFile: string, targetFile: string)
    requires versionFile != targetFile
    requires ReadVersionFile(t, versionFile).Ok? && targetFile in t.files
    requires FirstMatch(Split(t.files[targetFile].content, '\n'), Patterns.Matcher(Patterns.YamlVersion)).Some?
    ensures SyncResult(t, versionFile, targetFile, Patterns.Matcher(Patterns.YamlVersion)).Ok?
    ensures ValidateVersion(SyncResult(t, versionFile, targetFile, Patterns.Matcher(Patterns.YamlVersion)).value,
                            versionFile, targetFile, Patterns.Matcher(Patterns.YamlVersion))
         == Consistent(ReadVersionFile(t, versionFile).value)
  {
    var pattern := Patterns.Matcher(Patterns.YamlVersion);
    var version := ReadVersionFile(t, versionFile).value;
    var lines := Split(t.files[targetFile].content, '\n');
    var i := FirstMatch(lines, pattern).value;
    SemVerShape(version);
    YamlRewriteAccepted(lines[i], version);
    SyncThenValidate(t, versionFile, targetFile, pattern, i);
  }

  /** A line `^version:.*$` accepts names the YAML key, and is rewritten
      to a line the same pattern accepts. */
  lemma YamlRewriteAccepted(line: string, version: string)
    requires Patterns.Accepts(Patterns.YamlVersion, line) && '\n' !in version
    ensures CarriesVersion(line)
    ensures Patterns.Accepts(Patterns.YamlVersion, RewriteLine(line, version))
  {
    assert IsPrefix("version:", line);
    Patterns.YamlTemplateAccepted(version);
  }

  // ------------------------------------------------------------ release

  /** What `release` reports: the read error, the sync error, or the
      version with the verdict of validating the synced snapshot and the
      tag message. */
  datatype ReleaseOutcome =
    | ReadFailed(error: Error)
    | SyncFailed(error: Error)
    | Ready(version: string, verdict: Verdict, tagMessage: string)

  /** `tag_message or f"Release {version}"`: an absent or empty custom
      message falls back to the default. */
  function TagMessage(custom: Option<string>, version: string): (m: string)
    ensures custom.Some? && custom.value != [] ==> m == custom.value
    ensures custom.None? || custom.value == [] ==> |m| == 8 + |version| && m[..8] == "Release " && m[8..] == version
  {
    if custom.Some? && custom.value != [] then custom.value else "Release " + version
  }

  /** `release`: read, then sync, then validate the synced snapshot. The
      synced snapshot itself is not returned. */
  function ReleaseResult(t: Tree, versionFile: string, targetFile: string, pattern: string -> bool,
                         custom: Option<string>): (r: ReleaseOutcome)
    ensures r.ReadFailed? <==> ReadVersionFile(t, versionFile).Err?
    ensures ReadVersionFile(t, versionFile).Err? ==> r == ReadFailed(ReadVersionFile(t, versionFile).error)
    ensures ReadVersionFile(t, versionFile).Ok? && SyncResult(t, versionFile, targetFile, pattern).Err? ==>
      r == SyncFailed(SyncResult(t, versionFile, targetFile, pattern).error)
    ensures r.Ready? ==> r.tagMessage == TagMessage(custom, r.version)
    ensures r.SyncFailed? <==> ReadVersionFile(t, versionFile).Ok? && SyncResult(t, versionFile, targetFile, pattern).Err?
    ensures r.Ready? ==> r.version == ReadVersionFile(t, versionFile).value && IsSemVer(r.version)
    ensures r.Ready? ==> r.verdict == ValidateVersion(SyncResult(t, versionFile, targetFile, pattern).value,
                                                      versionFile, targetFile, pattern)
  {
    match ReadVersionFile(t, versionFile)
    case Err(e) => ReadFailed(e)
    case Ok(version) =>
      match SyncResult(t, versionFile, targetFile, pattern)
      case Err(e) => SyncFailed(e)
      case Ok(synced) =>
        Ready(version, ValidateVersion(synced, versionFile, targetFile, pattern), TagMessage(custom, version))
  }

  /** `release`, calling the step-by-step sync. */
  method Release(t: Tree, versionFile: string, targetFile: string, pattern: string -> bool, custom: Option<string>)
    returns (r: ReleaseOutcome)
    ensures r == ReleaseResult(t, versionFile, targetFile, pattern, custom)
  {
    var version := ReadVersionFile(t, versionFile);
    if version.Err? {
      return ReadFailed(version.error);
    }
    var synced := SyncVersion(t, versionFile, targetFile, pattern);
    if synced.Err? {
      return SyncFailed(synced.error);
    }
    var verdict := ValidateVersion(synced.value, versionFile, targetFile, pattern);
    r := Ready(version.value, verdict, TagMessage(custom, version.value));
  }

  /** A release whose sync keeps the version line matching always reports
      the version as consistent. */
  lemma ReleaseConsistent(t: Tree, versionFile: string, targetFile: string, pattern: string -> bool,
                          custom: Option<string>, i: nat)
    requires versionFile != targetFile
    requires ReadVersionFile(t, versionFile).Ok? && targetFile in t.files
    requires FirstMatch(Split(t.files[targetFile].content, '\n'), pattern) == Some(i)
    requires CarriesVersion(Split(t.files[targetFile].content, '\n')[i])
    requires pattern(RewriteLine(Split(t.files[targetFile].content, '\n')[i], ReadVersionFile(t, versionFile).value))
    ensures var v := ReadVersionFile(t, versionFile).value;
            ReleaseResult(t, versionFile, targetFile, pattern, custom) == Ready(v, Consistent(v), TagMessage(custom, v))
  {
    SyncThenValidate(t, versionFile, targetFile, pattern, i);
  }
}
