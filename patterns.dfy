/** The built-in version-line patterns, as predicates on one line of a file
    split on '\n'. `re.match` anchors at the start; `.` matches anything but
    '\n'; `$` matches at the end of the line. */
module Patterns {
  import opened Text

  datatype Pattern = YamlVersion | TomlVersion | DockerLabel

  /** The pattern as the regular expression text the hooks embed. */
  function PatternText(p: Pattern): string
  {
    match p
    case YamlVersion => "^version:.*$"
    case TomlVersion => "^version\\s*=\\s*\".*\"$"
    case DockerLabel => "LABEL version=\".*\"$"
  }

  /** `version =` with optional spaces, then a double-quoted value closing
      the line. */
  predicate TomlTail(r: string)
  {
    var a := LeadingSpace(r);
    a < |r| && r[a] == '=' &&
    var r2 := r[a + 1..];
    var b := LeadingSpace(r2);
    b < |r2| && r2[b] == '"' &&
    var r3 := r2[b + 1..];
    |r3| >= 1 && r3[|r3| - 1] == '"'
  }

  /** Whether `re.match(PatternText(p), line)` succeeds. */
  predicate Accepts(p: Pattern, line: string)
    ensures Accepts(p, line) ==> |line| >= 8 && line[0] == (if p == DockerLabel then 'L' else 'v')
  {
    '\n' !in line &&
    match p
    case YamlVersion => IsPrefix("version:", line)
    case TomlVersion => IsPrefix("version", line) && TomlTail(line[7..])
    case DockerLabel => IsPrefix("LABEL version=\"", line) && |line| >= 16 && line[|line| - 1] == '"'
  }

  /** The pattern as the line predicate the operations take. */
  function Matcher(p: Pattern): (m: string -> bool)
    ensures forall line :: m(line) == Accepts(p, line)
  {
    (line: string) => Accepts(p, line)
  }

  /** Every accepted line starts with the pattern's literal head. */
  lemma AcceptedHead(p: Pattern, line: string)
    requires Accepts(p, line)
    ensures p == DockerLabel ==> |line| > 0 && line[0] == 'L'
    ensures p != DockerLabel ==> |line| > 0 && line[0] == 'v'
  {
    if p == DockerLabel {
      assert line[..15] == "LABEL version=\"";
    } else if p == YamlVersion {
      assert line[..8] == "version:";
    } else {
      assert line[..7] == "version";
    }
  }

  /** The YAML template line `version: V` is accepted by the YAML pattern. */
  lemma YamlTemplateAccepted(v: string)
    requires '\n' !in v
    ensures Accepts(YamlVersion, "version: " + v)
  {
    assert ("version: " + v)[..8] == "version:";
  }

  /** The TOML template line `version = "V"` is accepted by the TOML pattern. */
  lemma TomlTemplateAccepted(v: string)
    requires '\n' !in v
    ensures Accepts(TomlVersion, "version = \"" + v + "\"")
  {
    var line := "version = \"" + v + "\"";
    assert line[..7] == "version";
    var r := line[7..];
    assert r == [' '] + ("= \"" + v + "\"");
    LeadingSpaceOf([' '], "= \"" + v + "\"");
    var r2 := r[2..];
    assert r2 == [' '] + ("\"" + v + "\"");
    LeadingSpaceOf([' '], "\"" + v + "\"");
    assert r2[2..] == v + "\"";
  }
}
