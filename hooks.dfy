/** Project detection, the managed git hook scripts, and `setup_git_hooks`. */
module Hooks {
  import opened Wrappers
  import opened Text
  import opened FileTree
  import opened Patterns
  import opened Manager
  import opened Scan

  // ------------------------------------------------------------ detection

  /** A project kind: its display name, the file holding its version line,
      and the pattern for that line. */
  datatype ProjectType = ProjectType(name: string, targetFile: string, pattern: Pattern)

  /** The marker files in priority order with the project type each names. */
  const Candidates: seq<(string, ProjectType)> := [
    ("galaxy.yml", ProjectType("Ansible Collection", "galaxy.yml", YamlVersion)),
    ("pyproject.toml", ProjectType("Python", "pyproject.toml", TomlVersion)),
    ("Chart.yaml", ProjectType("Helm", "Chart.yaml", YamlVersion)),
    ("Dockerfile", ProjectType("Docker", "Dockerfile", DockerLabel))
  ]

  /** The project type of the first candidate whose marker file exists. */
  function DetectFrom(t: Tree, candidates: seq<(string, ProjectType)>): (r: Option<ProjectType>)
    ensures r.None? <==> forall k :: 0 <= k < |candidates| ==> candidates[k].0 !in t.files
  {
    if candidates == [] then None
    else if candidates[0].0 in t.files then Some(candidates[0].1)
    else
      assert forall k :: 1 <= k < |candidates| ==> candidates[1..][k - 1] == candidates[k];
      DetectFrom(t, candidates[1..])
  }

  /** The first existing marker decides, whatever comes after it. */
  lemma {:induction false} DetectFirst(t: Tree, candidates: seq<(string, ProjectType)>, k: nat)
    requires k < |candidates| && candidates[k].0 in t.files
    requires forall j :: 0 <= j < k ==> candidates[j].0 !in t.files
    ensures DetectFrom(t, candidates) == Some(candidates[k].1)
  {
    if k > 0 {
      TailShift(candidates, k);
      DetectFirst(t, candidates[1..], k - 1);
    }
  }

  /** `_detect_project_type`. */
  function DetectProjectType(t: Tree): (r: Option<ProjectType>)
    ensures r.None? <==> ("galaxy.yml" !in t.files && "pyproject.toml" !in t.files &&
                          "Chart.yaml" !in t.files && "Dockerfile" !in t.files)
    ensures r.Some? ==> r.value.targetFile in t.files
  {
    DetectedTarget(t);
    DetectFrom(t, Candidates)
  }

  lemma DetectedTarget(t: Tree)
    ensures DetectFrom(t, Candidates).None? <==>
      ("galaxy.yml" !in t.files && "pyproject.toml" !in t.files &&
       "Chart.yaml" !in t.files && "Dockerfile" !in t.files)
    ensures DetectFrom(t, Candidates).Some? ==> DetectFrom(t, Candidates).value.targetFile in t.files
  {
    assert Candidates[0].0 == "galaxy.yml" && Candidates[1].0 == "pyproject.toml";
    assert Candidates[2].0 == "Chart.yaml" && Candidates[3].0 == "Dockerfile";
    if "galaxy.yml" in t.files {
      DetectFirst(t, Candidates, 0);
    } else if "pyproject.toml" in t.files {
      DetectFirst(t, Candidates, 1);
    } else if "Chart.yaml" in t.files {
      DetectFirst(t, Candidates, 2);
    } else if "Dockerfile" in t.files {
      DetectFirst(t, Candidates, 3);
    }
  }

  /** An Ansible collection wins over every other marker, and a Python
      project over Helm and Docker. */
  lemma DetectPriority(t: Tree)
    ensures "galaxy.yml" in t.files ==>
      DetectProjectType(t) == Some(ProjectType("Ansible Collection", "galaxy.yml", YamlVersion))
    ensures "galaxy.yml" !in t.files && "pyproject.toml" in t.files ==>
      DetectProjectType(t) == Some(ProjectType("Python", "pyproject.toml", TomlVersion))
    ensures "galaxy.yml" !in t.files && "pyproject.toml" !in t.files && "Chart.yaml" in t.files ==>
      DetectProjectType(t) == Some(ProjectType("Helm", "Chart.yaml", YamlVersion))
    ensures "galaxy.yml" !in t.files && "pyproject.toml" !in t.files && "Chart.yaml" !in t.files
            && "Dockerfile" in t.files ==>
      DetectProjectType(t) == Some(ProjectType("Docker", "Dockerfile", DockerLabel))
  {
    if "galaxy.yml" in t.files {
      DetectFirst(t, Candidates, 0);
    } else if "pyproject.toml" in t.files {
      DetectFirst(t, Candidates, 1);
    } else if "Chart.yaml" in t.files {
      DetectFirst(t, Candidates, 2);
    } else if "Dockerfile" in t.files {
      DetectFirst(t, Candidates, 3);
    }
  }

  // ------------------------------------------------------------ hook text

  /** The header comment that marks a hook as managed. */
  const Marker: string := "# DAGGER-VERSION-MANAGER:"

  /** `replace('"', '\\"')`: every double quote gets a backslash before it. */
  function EscapeQuotes(s: string): (r: string)
    ensures |r| >= |s|
    ensures r == [] || r[0] != '"'
    ensures forall k :: 0 <= k < |r| && r[k] == '"' ==> k > 0 && r[k - 1] == '\\'
  {
    if s == [] then []
    else if s[0] == '"' then ['\\', '"'] + EscapeQuotes(s[1..])
    else [s[0]] + EscapeQuotes(s[1..])
  }

  /** Reading an escaped text back: a backslash before a quote is dropped. */
  function UnescapeQuotes(s: string): string
  {
    if s == [] then []
    else if |s| >= 2 && s[0] == '\\' && s[1] == '"' then ['"'] + UnescapeQuotes(s[2..])
    else [s[0]] + UnescapeQuotes(s[1..])
  }

  /** Escaping loses nothing: unescaping gives the pattern back. */
  lemma {:induction false} EscapeRoundTrip(s: string)
    ensures UnescapeQuotes(EscapeQuotes(s)) == s
  {
    if s != [] {
      EscapeRoundTrip(s[1..]);
      var e := EscapeQuotes(s);
      if s[0] == '"' {
        assert e[2..] == EscapeQuotes(s[1..]);
      } else {
        assert e[1..] == EscapeQuotes(s[1..]);
      }
    }
  }

  /** `_generate_hook_content`: a bash script that runs `validate-version`
      for the project's target file and pattern and fails on anything but
      the consistent verdict. */
  function HookContent(hookType: string, version: string, targetFile: string, patternText: string,
                       timestamp: string): (s: string)
    ensures Contains(s, Marker)
  {
    var body :=
      " v" + version + "\n# Installed: " + timestamp + PurposeLine + ReplaceChar(hookType, '-', ' ') +
      CheckCommand + targetFile + PatternOption + EscapeQuotes(patternText) + Outcome;
    ContainsAt("#!/bin/bash\n", Marker, body);
    "#!/bin/bash\n" + Marker + body
  }

  /** The fixed parts of the hook script, between the filled-in values. */
  const PurposeLine: string :=
    "\n#\n# This hook validates version consistency before "
  const CheckCommand: string :=
    ".\n" +
    "# Managed by Dagger Version Manager - DO NOT EDIT MANUALLY\n" +
    "\n" +
    "echo \"Checking version consistency...\"\n" +
    "\n" +
    "if ! dagger call version-manager validate-version \\\n" +
    "    --target-file="
  const PatternOption: string :=
    " \\\n    --version-pattern=\""
  const Outcome: string :=
    "\" 2>&1 | grep -q \"\U{2705}\"; then\n" +
    "    echo \"\U{274C} Version mismatch detected!\"\n" +
    "    echo \"Run: dagger call version-manager sync-version export --path=.\"\n" +
    "    exit 1\n" +
    "fi\n" +
    "\n" +
    "echo \"\U{2705} Version check passed\"\n" +
    "exit 0\n"

  /** A hook is managed when its content holds the marker. */
  predicate IsManaged(content: string)
  {
    Contains(content, Marker)
  }

  /** `_check_existing_hook`: whether the hook exists and whether it is
      managed; a missing hook is not managed. */
  function CheckExistingHook(t: Tree, hookPath: string): (r: (bool, bool))
    ensures r.0 <==> hookPath in t.files
    ensures r.1 ==> r.0
    ensures r.1 <==> hookPath in t.files && IsManaged(t.files[hookPath].content)
  {
    if hookPath in t.files then (true, IsManaged(t.files[hookPath].content)) else (false, false)
  }

  /** Every generated hook is recognised as managed once written. */
  lemma GeneratedIsManaged(t: Tree, hookPath: string, hookType: string, version: string,
                           targetFile: string, patternText: string, timestamp: string)
    ensures CheckExistingHook(WithNewFile(t, hookPath,
              HookContent(hookType, version, targetFile, patternText, timestamp), HookMode), hookPath)
         == (true, true)
  {
  }

  // ------------------------------------------------------------ setup

  /** The hooks `setup_git_hooks` installs, as (path, hook type). */
  const HookSpecs: seq<(string, string)> := [
    (".git/hooks/pre-commit", "pre-commit"),
    (".git/hooks/pre-push", "pre-push")
  ]

  /** The checks made before any hook is written, in the source's order:
      the `.git` directory, the refusal of a `dagger.json` project, the
      project type, then the `VERSION` file. */
  function Preflight(t: Tree): (r: Result<(ProjectType, string), Error>)
    ensures ".git" !in t.dirs ==> r == Err(GitMissing)
    ensures ".git" in t.dirs && "dagger.json" in t.files ==> r == Err(DaggerModuleRefused)
    ensures ".git" in t.dirs && "dagger.json" !in t.files && DetectProjectType(t).None? ==>
      r == Err(UnknownProjectType)
    ensures (".git" in t.dirs && "dagger.json" !in t.files && DetectProjectType(t).Some? &&
             ReadVersionFile(t, "VERSION").Err?) ==> r == Err(ReadVersionFile(t, "VERSION").error)
    ensures r.Ok? <==> ".git" in t.dirs && "dagger.json" !in t.files && DetectProjectType(t).Some? &&
                       ReadVersionFile(t, "VERSION").Ok?
    ensures r.Ok? ==> r.value == (DetectProjectType(t).value, ReadVersionFile(t, "VERSION").value)
    ensures r.Ok? ==> r.value.0.targetFile in t.files && IsSemVer(r.value.1)
  {
    if ".git" !in t.dirs then Err(GitMissing)
    else if "dagger.json" in t.files then Err(DaggerModuleRefused)
    else
      match DetectProjectType(t)
      case None => Err(UnknownProjectType)
      case Some(project) =>
        match ReadVersionFile(t, "VERSION")
        case Err(e) => Err(e)
        case Ok(version) => Ok((project, version))
  }

  /** The scripts for the hooks of a detected project, in `HookSpecs` order;
      each hook's script carries its own clock reading. */
  function Scripts(project: ProjectType, version: string, timestamps: seq<string>): (s: seq<string>)
    requires |timestamps| == |HookSpecs|
    ensures |s| == |HookSpecs|
  {
    seq(|HookSpecs|, k requires 0 <= k < |HookSpecs| =>
      HookContent(HookSpecs[k].1, version, project.targetFile, PatternText(project.pattern), timestamps[k]))
  }

  /** Every generated script carries the marker. */
  lemma ScriptsManaged(project: ProjectType, version: string, timestamps: seq<string>)
    requires |timestamps| == |HookSpecs|
    ensures forall k :: 0 <= k < |HookSpecs| ==> IsManaged(Scripts(project, version, timestamps)[k])
  {
  }

  /** What a hook path holds after its install step: an existing unmanaged
      hook as before, otherwise the new script with mode 0o755. */
  predicate Installed(before: Tree, after: Tree, path: string, content: string)
  {
    path in after.files &&
    if path in before.files && !IsManaged(before.files[path].content)
    then after.files[path] == before.files[path]
    else after.files[path] == File(content, HookMode)
  }

  /** One step of the install loop. */
  function InstallOne(t: Tree, path: string, content: string): (u: Tree)
    ensures Installed(t, u, path, content)
    ensures u.dirs == t.dirs
    ensures forall p :: p != path ==> (p in u.files <==> p in t.files)
    ensures forall p :: p != path && p in t.files ==> u.files[p] == t.files[p]
  {
    var (present, managed) := CheckExistingHook(t, path);
    if present && !managed then t else WithNewFile(t, path, content, HookMode)
  }

  /** The install loop over the first `n` hooks, each with its script. */
  function InstallUpTo(t: Tree, hooks: seq<(string, string)>, scripts: seq<string>, n: nat): Tree
    requires n <= |hooks| == |scripts|
  {
    if n == 0 then t
    else InstallOne(InstallUpTo(t, hooks, scripts, n - 1), hooks[n - 1].0, scripts[n - 1])
  }

  /** `setup_git_hooks` on a snapshot. The clock is read once per hook, as
      each pass of the loop generates its script: `timestamps[k]` is the
      reading taken for hook `k`. */
  function SetupResult(t: Tree, timestamps: seq<string>): (r: Result<Tree, Error>)
    requires |timestamps| == |HookSpecs|
    ensures r.Ok? <==> Preflight(t).Ok?
    ensures r.Err? ==> r.error == Preflight(t).error
  {
    match Preflight(t)
    case Err(e) => Err(e)
    case Ok((project, version)) =>
      Ok(InstallUpTo(t, HookSpecs, Scripts(project, version, timestamps), |HookSpecs|))
  }

  /** One pass of the hook loop: an existing unmanaged hook is skipped,
      otherwise the generated script is written with mode 0o755. */
  method InstallStep(t: Tree, hookPath: string, hookType: string, project: ProjectType,
                     version: string, timestamp: string) returns (u: Tree, skipped: bool)
    ensures u == InstallOne(t, hookPath, HookContent(hookType, version, project.targetFile,
                                                     PatternText(project.pattern), timestamp))
    ensures skipped <==> hookPath in t.files && !IsManaged(t.files[hookPath].content)
  {
    var (present, managed) := CheckExistingHook(t, hookPath);
    if present && !managed {
      return t, true;
    }
    var content := HookContent(hookType, version, project.targetFile, PatternText(project.pattern), timestamp);
    u := WithNewFile(t, hookPath, content, HookMode);
    skipped := false;
  }

  /** The hook loop of `setup_git_hooks`: the snapshot is threaded through
      it; each skipped hook adds a warning, and the warnings are dropped.
      Pass `i` stamps its script with its own reading `timestamps[i]`. */
  method InstallHooks(t: Tree, project: ProjectType, version: string, timestamps: seq<string>) returns (updated: Tree)
    requires |timestamps| == |HookSpecs|
    ensures updated == InstallUpTo(t, HookSpecs, Scripts(project, version, timestamps), |HookSpecs|)
  {
    ghost var scripts := Scripts(project, version, timestamps);
    var warnings: seq<string> := [];
    updated := t;
    for i := 0 to |HookSpecs|
      invariant updated == InstallUpTo(t, HookSpecs, scripts, i)
    {
      var (hookPath, hookType) := HookSpecs[i];
      var skipped;
      updated, skipped := InstallStep(updated, hookPath, hookType, project, version, timestamps[i]);
      ScriptAt(project, version, timestamps, i);
      InstallUpToStep(t, HookSpecs, scripts, i);
      if skipped {
        warnings := warnings + [hookPath];
      }
    }
  }

  /** One more pass of the loop is one more install step. */
  lemma InstallUpToStep(t: Tree, hooks: seq<(string, string)>, scripts: seq<string>, i: nat)
    requires i < |hooks| == |scripts|
    ensures InstallUpTo(t, hooks, scripts, i + 1)
         == InstallOne(InstallUpTo(t, hooks, scripts, i), hooks[i].0, scripts[i])
  {
  }

  /** The script of hook `i` is its template filled in. */
  lemma ScriptAt(project: ProjectType, version: string, timestamps: seq<string>, i: nat)
    requires i < |HookSpecs| == |timestamps|
    ensures Scripts(project, version, timestamps)[i]
         == HookContent(HookSpecs[i].1, version, project.targetFile, PatternText(project.pattern), timestamps[i])
  {
  }

  /** `setup_git_hooks`, step by step: the checks in order, then the hook
      loop. */
  method SetupGitHooks(t: Tree, timestamps: seq<string>) returns (r: Result<Tree, Error>)
    requires |timestamps| == |HookSpecs|
    ensures r == SetupResult(t, timestamps)
  {
    if ".git" !in t.dirs {
      return Err(GitMissing);
    }
    if "dagger.json" in t.files {
      return Err(DaggerModuleRefused);
    }
    var project := DetectProjectType(t);
    if project.None? {
      return Err(UnknownProjectType);
    }
    var version := ReadVersionFile(t, "VERSION");
    if version.Err? {
      return Err(version.error);
    }
    var updated := InstallHooks(t, project.value, version.value, timestamps);
    assert Preflight(t) == Ok((project.value, version.value));
    r := Ok(updated);
  }

  /** A loop over two hooks is two install steps. */
  lemma InstallTwo(t: Tree, hooks: seq<(string, string)>, scripts: seq<string>)
    requires |hooks| == |scripts| == 2
    ensures InstallUpTo(t, hooks, scripts, 2)
         == InstallOne(InstallOne(t, hooks[0].0, scripts[0]), hooks[1].0, scripts[1])
  {
    assert InstallUpTo(t, hooks, scripts, 1) == InstallOne(t, hooks[0].0, scripts[0]);
  }

  /** The loop over two distinct hook paths: each path holds what its own
      install step left, and nothing else changes. */
  lemma InstallTwoEffect(t: Tree, hooks: seq<(string, string)>, scripts: seq<string>)
    requires |hooks| == |scripts| == 2 && hooks[0].0 != hooks[1].0
    ensures Installed(t, InstallUpTo(t, hooks, scripts, 2), hooks[0].0, scripts[0])
    ensures Installed(t, InstallUpTo(t, hooks, scripts, 2), hooks[1].0, scripts[1])
    ensures InstallUpTo(t, hooks, scripts, 2).dirs == t.dirs
    ensures forall p :: p != hooks[0].0 && p != hooks[1].0 ==>
              (p in InstallUpTo(t, hooks, scripts, 2).files <==> p in t.files)
    ensures forall p :: p != hooks[0].0 && p != hooks[1].0 && p in t.files ==>
              InstallUpTo(t, hooks, scripts, 2).files[p] == t.files[p]
  {
    InstallTwo(t, hooks, scripts);
  }

  /** Installing over a path that already holds this script, or an
      unmanaged hook, changes nothing. */
  lemma InstallStable(t: Tree, path: string, content: string)
    requires IsManaged(content) && path in t.files
    requires t.files[path] == File(content, HookMode) || !IsManaged(t.files[path].content)
    ensures InstallOne(t, path, content) == t
  {
    if IsManaged(t.files[path].content) {
      assert t.files[path := File(content, HookMode)] == t.files;
    }
  }

  /** Installing managed scripts twice over two distinct paths reaches a
      fixed point. */
  lemma InstallTwoIdempotent(t: Tree, hooks: seq<(string, string)>, scripts: seq<string>)
    requires |hooks| == |scripts| == 2 && hooks[0].0 != hooks[1].0
    requires IsManaged(scripts[0]) && IsManaged(scripts[1])
    ensures InstallUpTo(InstallUpTo(t, hooks, scripts, 2), hooks, scripts, 2)
         == InstallUpTo(t, hooks, scripts, 2)
  {
    var u := InstallUpTo(t, hooks, scripts, 2);
    InstallTwoEffect(t, hooks, scripts);
    InstallTwo(u, hooks, scripts);
    InstallStable(u, hooks[0].0, scripts[0]);
    InstallStable(u, hooks[1].0, scripts[1]);
  }

  /** A setup whose checks pass runs the install loop with the scripts of
      the detected project and the version read. */
  lemma SetupRuns(t: Tree, timestamps: seq<string>, project: ProjectType, version: string)
    requires |timestamps| == |HookSpecs|
    requires Preflight(t) == Ok((project, version))
    ensures SetupResult(t, timestamps) == Ok(InstallUpTo(t, HookSpecs, Scripts(project, version, timestamps), 2))
  {
  }

  /** After a successful setup, each hook path holds either the existing
      unmanaged hook, untouched, or its generated script with mode 0o755;
      no other path and no directory changes. */
  lemma SetupInstalls(t: Tree, timestamps: seq<string>, project: ProjectType, version: string)
    requires |timestamps| == |HookSpecs|
    requires Preflight(t) == Ok((project, version))
    ensures SetupResult(t, timestamps).Ok?
    ensures Installed(t, SetupResult(t, timestamps).value, ".git/hooks/pre-commit",
                      Scripts(project, version, timestamps)[0])
    ensures Installed(t, SetupResult(t, timestamps).value, ".git/hooks/pre-push",
                      Scripts(project, version, timestamps)[1])
    ensures SetupResult(t, timestamps).value.dirs == t.dirs
    ensures forall p :: p != ".git/hooks/pre-commit" && p != ".git/hooks/pre-push" ==>
              (p in SetupResult(t, timestamps).value.files <==> p in t.files)
    ensures forall p :: p != ".git/hooks/pre-commit" && p != ".git/hooks/pre-push" && p in t.files ==>
              SetupResult(t, timestamps).value.files[p] == t.files[p]
  {
    SetupRuns(t, timestamps, project, version);
    InstallTwoEffect(t, HookSpecs, Scripts(project, version, timestamps));
  }

  /** Detection looks only at whether the four marker files exist. */
  lemma DetectSameMarkers(t: Tree, u: Tree)
    requires "galaxy.yml" in u.files <==> "galaxy.yml" in t.files
    requires "pyproject.toml" in u.files <==> "pyproject.toml" in t.files
    requires "Chart.yaml" in u.files <==> "Chart.yaml" in t.files
    requires "Dockerfile" in u.files <==> "Dockerfile" in t.files
    ensures DetectProjectType(u) == DetectProjectType(t)
  {
    DetectPriority(t);
    DetectPriority(u);
  }

  /** The checks before installing look only at paths the install loop
      does not write. */
  lemma PreflightUnchanged(t: Tree, u: Tree)
    requires u.dirs == t.dirs
    requires forall p :: p != ".git/hooks/pre-commit" && p != ".git/hooks/pre-push" ==>
               (p in u.files <==> p in t.files) && (p in t.files ==> u.files[p] == t.files[p])
    ensures Preflight(u) == Preflight(t)
  {
    ghost var watched := ["dagger.json", "galaxy.yml", "pyproject.toml", "Chart.yaml", "Dockerfile", "VERSION"];
    forall k | 0 <= k < |watched|
      ensures watched[k] in u.files <==> watched[k] in t.files
      ensures watched[k] in t.files ==> u.files[watched[k]] == t.files[watched[k]]
    {
      // none of them starts with '.', so neither hook path is among them
      assert watched[k][0] != '.';
    }
    DetectSameMarkers(t, u);
    assert watched[5] == "VERSION";
  }

  /** Running setup again with the same clock readings changes nothing. */
  lemma SetupIdempotent(t: Tree, timestamps: seq<string>)
    requires |timestamps| == |HookSpecs|
    requires SetupResult(t, timestamps).Ok?
    ensures SetupResult(SetupResult(t, timestamps).value, timestamps) == SetupResult(t, timestamps)
  {
    var (project, version) := Preflight(t).value;
    var scripts := Scripts(project, version, timestamps);
    var u := InstallUpTo(t, HookSpecs, scripts, 2);
    SetupRuns(t, timestamps, project, version);
    InstallTwoEffect(t, HookSpecs, scripts);
    PreflightUnchanged(t, u);
    SetupRuns(u, timestamps, project, version);
    ScriptsManaged(project, version, timestamps);
    InstallTwoIdempotent(t, HookSpecs, scripts);
  }



}
