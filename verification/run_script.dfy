/**
 The job body, `run_script(script_path)` of scripts/run_script.py: it resolves the
 client's path under a fixed workspace directory, runs it with bash from the
 script's own directory, and reports success as a boolean. The child process is
 a parameter: a function from the invocation to what became of it.
 */
module RunScript {

  import opened PosixPath

  /** The command line and working directory handed to `subprocess.run`. */
  datatype Invocation = Invocation(argv: seq<string>, cwd: string)

  /**
   What became of the child: it ran to an exit status, with captured output that
   does or does not decode as text in the locale's encoding; or starting or
   waiting for it raised (missing bash, missing directory, ...).
   */
  datatype ChildOutcome = Exited(code: int, outputDecodes: bool) | StartFailed(reason: string)

  /**
   What `subprocess.run(..., capture_output=True, text=True, check=True)` does:
   return, raise `CalledProcessError`, or raise another exception. Decoding the
   captured output happens before the exit status is checked, so an undecodable
   output raises `UnicodeDecodeError` whatever the status.
   */
  datatype RunResult = Completed | NonZeroExit(returncode: int) | OtherError(reason: string)

  /** The absolute script path: the client's path with its leading separators dropped, joined under the workspace. */
  function ResolvePath(workspace: string, scriptPath: string): (path: string)
    ensures |workspace| <= |path| && path[..|workspace|] == workspace
    ensures var seg := LStrip(scriptPath, Sep);
      |seg| <= |path| && path[|path| - |seg|..] == seg && |path| - |workspace| - |seg| <= 1
    ensures forall i :: |workspace| <= i < |path| - |LStrip(scriptPath, Sep)| ==> path[i] == Sep
    ensures path == if |workspace| > 0 && workspace[|workspace| - 1] != Sep
                    then workspace + [Sep] + LStrip(scriptPath, Sep)
                    else workspace + LStrip(scriptPath, Sep)
  {
    var seg := LStrip(scriptPath, Sep);
    JoinRelative(workspace, seg);
    JoinedShape(workspace, seg);
    Join(workspace, seg)
  }

  /** The workspace, an optional separator, then the segment: the parts sit where `ResolvePath` says. */
  lemma JoinedShape(workspace: string, seg: string)
    ensures var path := if |workspace| > 0 && workspace[|workspace| - 1] != Sep then workspace + [Sep] + seg else workspace + seg;
      && |workspace| <= |path| && path[..|workspace|] == workspace
      && |seg| <= |path| && path[|path| - |seg|..] == seg && |path| - |workspace| - |seg| <= 1
      && forall i :: |workspace| <= i < |path| - |seg| ==> path[i] == Sep
  {
  }

  /** `bash <resolved path>`, run from the directory that holds the script. */
  function Plan(workspace: string, scriptPath: string): (inv: Invocation)
    ensures |inv.argv| == 2 && inv.argv[0] == "bash" && inv.argv[1] == ResolvePath(workspace, scriptPath)
    ensures inv.cwd == Dirname(inv.argv[1])
    ensures |inv.cwd| <= |inv.argv[1]| && inv.cwd == inv.argv[1][..|inv.cwd|]
  {
    var path := ResolvePath(workspace, scriptPath);
    Invocation(["bash", path], Dirname(path))
  }

  /** With `check=True`, only exit status 0 with decodable output completes; a non-zero status raises. */
  function SubprocessRun(outcome: ChildOutcome): (r: RunResult)
    ensures r == Completed <==> outcome == Exited(0, true)
    ensures r.NonZeroExit? <==> outcome.Exited? && outcome.outputDecodes && outcome.code != 0
    ensures r.NonZeroExit? ==> r.returncode == outcome.code
  {
    match outcome
    case Exited(code, decodes) =>
      if !decodes then OtherError("UnicodeDecodeError")
      else if code == 0 then Completed
      else NonZeroExit(code)
    case StartFailed(reason) => OtherError(reason)
  }

  /** Both except clauses answer `False`, so every outcome is a boolean and nothing propagates. */
  function RunScript(workspace: string, scriptPath: string, child: Invocation -> ChildOutcome): (ok: bool)
    ensures ok <==> child(Plan(workspace, scriptPath)) == Exited(0, true)
  {
    match SubprocessRun(child(Plan(workspace, scriptPath)))
    case Completed => true
    case NonZeroExit(_) => false
    case OtherError(_) => false
  }

  /** `False` answers exactly a non-zero exit, an output that does not decode, or a failure to start. */
  lemma RunScriptFailures(workspace: string, scriptPath: string, child: Invocation -> ChildOutcome)
    ensures var o := child(Plan(workspace, scriptPath));
      (!RunScript(workspace, scriptPath, child))
      <==> (o.Exited? && o.code != 0) || (o.Exited? && !o.outputDecodes) || o.StartFailed?
  {
  }

  /**
   The path segment never starts with a separator, so the join keeps the
   workspace as a prefix and adds a separator only where the workspace lacks one.
   */
  lemma ResolveKeepsWorkspace(workspace: string, scriptPath: string)
    ensures var seg := LStrip(scriptPath, Sep);
      && (|seg| == 0 || seg[0] != Sep)
      && (forall i :: 0 <= i < |scriptPath| - |seg| ==> scriptPath[i] == Sep)
      && ResolvePath(workspace, scriptPath)
         == if |workspace| > 0 && workspace[|workspace| - 1] != Sep then workspace + [Sep] + seg else workspace + seg
  {
  }

  /** A client path naming a file directly (after any leading separators) runs from the workspace itself. */
  lemma TopLevelScriptRunsInWorkspace(workspace: string, scriptPath: string)
    requires DirectoryForm(workspace)
    requires forall j :: 0 <= j < |LStrip(scriptPath, Sep)| ==> LStrip(scriptPath, Sep)[j] != Sep
    ensures Plan(workspace, scriptPath).cwd == workspace
  {
    DirnameOfChild(workspace, LStrip(scriptPath, Sep));
  }

  /** A client path `dir/name` runs from `dir` joined under the workspace. */
  lemma NestedScriptRunsInItsDirectory(workspace: string, scriptPath: string, dir: string, name: string)
    requires |dir| > 0 && dir[|dir| - 1] != Sep
    requires forall j :: 0 <= j < |name| ==> name[j] != Sep
    requires LStrip(scriptPath, Sep) == dir + [Sep] + name
    ensures Plan(workspace, scriptPath).cwd == Join(workspace, dir)
  {
    var x := Join(workspace, dir);
    assert dir[0] == LStrip(scriptPath, Sep)[0];
    JoinNested(workspace, dir, name);
    assert DirectoryForm(x) by {
      assert x[|x| - 1] == dir[|dir| - 1];
    }
    DirnameOfChild(x, name);
  }

  /** Parent-directory segments are kept as they are: nothing confines the resolved path to the workspace. */
  lemma ParentSegmentsPassThrough(workspace: string)
    ensures ResolvePath(workspace, "/../outside.sh") == Join(workspace, "../outside.sh")
  {
    var client := "/../outside.sh";
    var seg := client[1..];
    assert seg == "../outside.sh";
    assert LStrip(client, Sep) == LStrip(seg, Sep);
    assert LStrip(seg, Sep) == seg by {
      assert seg[0] != Sep;
    }
  }
}
