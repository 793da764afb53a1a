/** The director's job factory: turns the values of the submission form into
    the job dictionary sent to an agent. The job is named after the current
    time, its output directory lies under the project's `Saved` folder, the
    scene parameters and the resolution are cast to numbers, and a failed
    cast makes the whole job invalid. */
module JobFactory {
  import opened Py
  import opened Text
  import opened Numerals
  import NtPath

  /** Python's `float(s)` on a string, which is not modelled: it is given. */
  type FloatParser = string -> Option<real>

  /** `float(v)`: numbers keep their value, booleans count as 1 and 0,
      strings are parsed, anything else is a `TypeError`. */
  function ToFloat(v: Value, parse: FloatParser): Option<real>
  {
    match v
    case Num(n) => Some(n)
    case Bool(b) => Some(if b then 1.0 else 0.0)
    case Str(s) => parse(s)
    case _ => None
  }

  /** `int(v)`: numbers are truncated toward zero, booleans count as 1 and 0,
      strings are read as Python reads an integer literal, anything else is
      a `TypeError`. */
  function ToInt(v: Value): Option<int>
  {
    match v
    case Num(n) => Some(Trunc(n))
    case Bool(b) => Some(if b then 1 else 0)
    case Str(s) => ParseInt(s)
    case _ => None
  }

  /** The scene parameters, each cast with `float`. */
  const SceneParams: seq<string> := ["time_of_day", "cloud_coverage"]

  const DefaultWidth: int := 1920
  const DefaultHeight: int := 1080

  /** The keys of every job the factory builds. */
  const JobKeys: set<string> := {
    "job_id", "project_path", "graph_path", "level_path", "sequence_path",
    "camera_actor_name", "output_path", "resolution", "scene_settings"
  }

  /** A form field that is present and not `null`. */
  predicate Given(form: Dict, key: string)
  {
    !Get(form, key, Null).Null?
  }

  /** The loop over the scene parameters: each one given in the form is cast
      to a float and stored under its own name; the first failed cast ends
      the loop with `None`. */
  function SceneLoop(form: Dict, params: seq<string>, settings: Dict, parse: FloatParser): (r: Option<Dict>)
    ensures r.Some? <==> forall p :: p in params && Given(form, p) ==> ToFloat(form[p], parse).Some?
    ensures r.Some? ==> r.value.Keys == settings.Keys + (set p | p in params && Given(form, p))
    ensures r.Some? ==> forall p :: p in params && Given(form, p) ==> r.value[p] == Num(ToFloat(form[p], parse).value)
    ensures r.Some? ==> forall p :: p in settings && p !in params ==> r.value[p] == settings[p]
    decreases |params|
  {
    if |params| == 0 then Some(settings)
    else
      var p := params[0];
      assert forall q :: q in params <==> q == p || q in params[1..];
      if Given(form, p) then
        match ToFloat(form[p], parse)
        case None => None
        case Some(x) => SceneLoop(form, params[1..], settings[p := Num(x)], parse)
      else SceneLoop(form, params[1..], settings, parse)
  }

  /** `f"job_{int(time.time())}"` */
  function JobName(now: real): (name: string)
    ensures |name| > 4 && name[..4] == "job_"
    ensures NtPath.Name(name)
  {
    var digits := IntToString(Trunc(now));
    IntToStringChars(Trunc(now), '\\');
    IntToStringChars(Trunc(now), '/');
    IntToStringChars(Trunc(now), ':');
    var name := "job_" + digits;
    assert name[4..] == digits;
    name
  }

  /** The folder of the project: the directory of a `.uproject` file, or the
      path itself when it names something else. */
  function ProjectDir(projectPath: string): string
  {
    if EndsWith(projectPath, ".uproject") then NtPath.DirName(projectPath) else projectPath
  }

  /** The components joined under the project folder. */
  function OutputNames(now: real): (names: seq<string>)
    ensures |names| == 4
    ensures forall i :: 0 <= i < |names| ==> NtPath.Name(names[i])
  {
    FixedNames();
    ["Saved", "RenderJobs", JobName(now), "export"]
  }

  lemma FixedNames()
    ensures NtPath.Name("Saved") && NtPath.Name("RenderJobs") && NtPath.Name("export")
  {
  }

  /** `os.path.join(project_dir, 'Saved', 'RenderJobs', job_name,
      'export').replace('\\', '/')` */
  function OutputPath(projectPath: string, now: real): (r: string)
    ensures '\\' !in r
  {
    NtPath.NamesArePlain(OutputNames(now));
    ReplaceChar(NtPath.Join(ProjectDir(projectPath), OutputNames(now)), '\\', '/')
  }

  /** The resolution pair, or `None` when either cast fails. */
  function Resolution(form: Dict): Option<(int, int)>
  {
    var width := ToInt(Get(form, "res_x", Num(DefaultWidth as real)));
    var height := ToInt(Get(form, "res_y", Num(DefaultHeight as real)));
    if width.Some? && height.Some? then Some((width.value, height.value)) else None
  }

  /** Every cast the form calls for succeeds. */
  predicate CastsSucceed(form: Dict, parse: FloatParser)
  {
    && (forall p :: p in SceneParams && Given(form, p) ==> ToFloat(form[p], parse).Some?)
    && ToInt(Get(form, "res_x", Num(DefaultWidth as real))).Some?
    && ToInt(Get(form, "res_y", Num(DefaultHeight as real))).Some?
  }

  /** The job the factory assembles, field by field. */
  datatype Job = Job(
    jobId: string,
    projectPath: string,
    graphPath: Value,
    levelPath: Value,
    sequencePath: Value,
    cameraActorName: Value,
    outputPath: string,
    width: int,
    height: int,
    sceneSettings: Dict)

  /** The job as the dictionary that is sent to an agent. */
  function ToDict(job: Job): (d: Dict)
    ensures d.Keys == JobKeys
  {
    map[
      "job_id" := Str(job.jobId),
      "project_path" := Str(job.projectPath),
      "graph_path" := job.graphPath,
      "level_path" := job.levelPath,
      "sequence_path" := job.sequencePath,
      "camera_actor_name" := job.cameraActorName,
      "output_path" := Str(job.outputPath),
      "resolution" := List([Num(job.width as real), Num(job.height as real)]),
      "scene_settings" := Object(job.sceneSettings)
    ]
  }

  /** A job; `None` from a caught `ValueError` or `TypeError`; or an
      exception the factory does not catch. */
  datatype Created = Built(job: Job) | Invalid | Uncaught

  /** `create_job_dict(form_data)` at time `now`. A `project_path` that is
      not a string has no `endswith`, which raises an `AttributeError` the
      factory does not catch. */
  function CreateJobDict(form: Dict, now: real, parse: FloatParser): (r: Created)
    ensures r.Uncaught? <==> !Get(form, "project_path", Str("")).Str?
    ensures r.Invalid? <==> Get(form, "project_path", Str("")).Str? && !CastsSucceed(form, parse)
    ensures r.Built? ==> r.job.jobId == JobName(now) && Str(r.job.projectPath) == Get(form, "project_path", Str(""))
  {
    var projectPath := Get(form, "project_path", Str(""));
    if !projectPath.Str? then Uncaught
    else
      var scene := SceneLoop(form, SceneParams, map[], parse);
      var resolution := Resolution(form);
      if scene.None? || resolution.None? then Invalid
      else
        Built(Job(
          JobName(now),
          projectPath.s,
          Get(form, "graph_path", Str("")),
          Get(form, "level_path", Str("")),
          Get(form, "sequence_path", Str("")),
          Get(form, "camera_name", Str("")),
          OutputPath(projectPath.s, now),
          resolution.value.0,
          resolution.value.1,
          scene.value))
  }

  /** The other paths are copied from the form, with the empty string for a
      missing one, and the camera name is stored as the camera actor's. */
  lemma BuiltCopiesPaths(form: Dict, now: real, parse: FloatParser)
    requires CreateJobDict(form, now, parse).Built?
    ensures var job := CreateJobDict(form, now, parse).job;
            && job.graphPath == Get(form, "graph_path", Str(""))
            && job.levelPath == Get(form, "level_path", Str(""))
            && job.sequencePath == Get(form, "sequence_path", Str(""))
            && job.cameraActorName == Get(form, "camera_name", Str(""))
            && job.outputPath == OutputPath(job.projectPath, now)
  {
  }

  /** The scene settings hold exactly the given scene parameters, as
      floats. */
  lemma BuiltSceneSettings(form: Dict, now: real, parse: FloatParser)
    requires CreateJobDict(form, now, parse).Built?
    ensures var settings := CreateJobDict(form, now, parse).job.sceneSettings;
            && settings.Keys == (set p | p in SceneParams && Given(form, p))
            && forall p :: p in settings ==> settings[p] == Num(ToFloat(form[p], parse).value)
  {
  }

  /** Without `res_x` and `res_y` the job renders at 1920 by 1080. */
  lemma DefaultResolution(form: Dict, now: real, parse: FloatParser)
    requires CreateJobDict(form, now, parse).Built?
    requires "res_x" !in form && "res_y" !in form
    ensures CreateJobDict(form, now, parse).job.width == 1920
    ensures CreateJobDict(form, now, parse).job.height == 1080
  {
    assert Trunc(1920.0) == 1920 && Trunc(1080.0) == 1080;
  }

  /** A resolution given as numerals is read as the integers they spell. */
  lemma StringResolution(form: Dict, now: real, parse: FloatParser, width: int, height: int)
    requires Get(form, "project_path", Str("")).Str?
    requires forall p :: p in SceneParams && Given(form, p) ==> ToFloat(form[p], parse).Some?
    requires Printable(width) && Printable(height)
    requires Get(form, "res_x", Null) == Str(IntToString(width))
    requires Get(form, "res_y", Null) == Str(IntToString(height))
    ensures CreateJobDict(form, now, parse).Built?
    ensures CreateJobDict(form, now, parse).job.width == width
    ensures CreateJobDict(form, now, parse).job.height == height
  {
    ResolutionOfNumerals(form, width, height);
    assert CastsSucceed(form, parse);
  }

  lemma ResolutionOfNumerals(form: Dict, width: int, height: int)
    requires Printable(width) && Printable(height)
    requires Get(form, "res_x", Null) == Str(IntToString(width))
    requires Get(form, "res_y", Null) == Str(IntToString(height))
    ensures Resolution(form) == Some((width, height))
  {
    assert ToInt(Get(form, "res_x", Num(DefaultWidth as real))) == Some(width) by {
      ParseIntToString(width);
    }
    assert ToInt(Get(form, "res_y", Num(DefaultHeight as real))) == Some(height) by {
      ParseIntToString(height);
    }
  }

  /** The output path ends with `Saved/RenderJobs/<job name>/export`,
      whatever the project path. */
  lemma OutputPathEnds(projectPath: string, now: real)
    ensures EndsWith(OutputPath(projectPath, now), Join(OutputNames(now), '/'))
  {
    var names := OutputNames(now);
    NtPath.NamesArePlain(names);
    NtPath.JoinEnds(ProjectDir(projectPath), names);
    SlashedEnds(NtPath.Join(ProjectDir(projectPath), names), names);
  }

  /** For `dir\Name.uproject` with a relative `dir`, the output lies inside
      `dir`, next to the project file. */
  lemma OutputBesideProject(dir: string, file: string, now: real)
    requires |dir| > 0 && !NtPath.IsSep(dir[0]) && !NtPath.IsSep(dir[|dir| - 1])
    requires |dir| < 2 || dir[1] != ':'
    requires NtPath.NoSep(file) && EndsWith(file, ".uproject")
    ensures OutputPath(dir + "\\" + file, now)
            == ReplaceChar(dir, '\\', '/') + "/" + Join(OutputNames(now), '/')
  {
    var p := dir + "\\" + file;
    assert ProjectDir(p) == dir by {
      assert EndsWith(p, ".uproject") by { assert p[|p| - |file|..] == file; }
      NtPath.DirNameOfFile(dir, file);
    }
    var names := OutputNames(now);
    NtPath.NamesArePlain(names);
    var joined := NtPath.Join(dir, names);
    assert joined == dir + "\\" + Join(names, '\\') by {
      assert NtPath.SplitRoot(dir) == NtPath.Root("", "", dir);
      NtPath.JoinAfterDirectory(dir, names);
    }
    assert OutputPath(p, now) == ReplaceChar(joined, '\\', '/');
    SlashedAfter(dir, names);
  }

  /** A path ending in the components joined by `\` ends, with forward
      slashes, in the components joined by `/`. */
  lemma SlashedEnds(joined: string, names: seq<string>)
    requires |names| > 0 && forall i :: 0 <= i < |names| ==> NtPath.Name(names[i])
    requires EndsWith(joined, Join(names, '\\'))
    ensures EndsWith(ReplaceChar(joined, '\\', '/'), Join(names, '/'))
  {
    var tail := Join(names, '\\');
    var front := joined[..|joined| - |tail|];
    assert joined == front + tail;
    ReplaceCharAppend(front, tail, '\\', '/');
    ReplaceCharJoin(names, '\\', '/');
  }

  lemma SlashedAfter(dir: string, names: seq<string>)
    requires |names| > 0 && forall i :: 0 <= i < |names| ==> NtPath.Name(names[i])
    ensures ReplaceChar(dir + "\\" + Join(names, '\\'), '\\', '/') == ReplaceChar(dir, '\\', '/') + "/" + Join(names, '/')
  {
    var tail := Join(names, '\\');
    var front := ReplaceChar(dir, '\\', '/');
    ReplaceCharAppend(dir + "\\", tail, '\\', '/');
    assert ReplaceChar(dir + "\\", '\\', '/') == front + "/" by {
      ReplaceCharAppend(dir, "\\", '\\', '/');
      assert ReplaceChar("\\", '\\', '/') == "/";
    }
    ReplaceCharJoin(names, '\\', '/');
  }
}
