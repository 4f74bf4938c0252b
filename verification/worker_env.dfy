/** The environment an analysis worker process is started with: the parent's
    environment with the package root on PYTHONPATH and the debugger port
    variable renamed and offset by the worker's index. */
module WorkerEnv {
  import opened Wrappers
  import opened Text
  import opened Decimal

  const PYTHONPATH: string := "PYTHONPATH"
  const CP_JDWP_PORT: string := "CP_JDWP_PORT"
  const AW_JDWP_PORT: string := "AW_JDWP_PORT"

  type Env = map<string, string>

  /** `int()` rejected the inherited debugger port. */
  datatype EnvError = BadDebugPort(text: string)

  /** The paths added after any inherited PYTHONPATH: the root directory unless it is
      already one of the inherited components, then the extra interpreter paths a
      frozen macOS build contributes (empty otherwise). */
  function AddedPaths(env: Env, root: string, sep: char, frozenPaths: seq<string>): seq<string> {
    (if PYTHONPATH in env && root in Split(env[PYTHONPATH], sep) then [] else [root]) + frozenPaths
  }

  /** The worker's PYTHONPATH value: the inherited value first, then the added paths,
      separated by `sep`. */
  function PythonPath(env: Env, root: string, sep: char, frozenPaths: seq<string>): string {
    var added := AddedPaths(env, root, sep, frozenPaths);
    Join(if PYTHONPATH in env then [env[PYTHONPATH]] + added else added, sep)
  }

  lemma ManagedNamesDistinct()
    ensures PYTHONPATH != CP_JDWP_PORT && PYTHONPATH != AW_JDWP_PORT && CP_JDWP_PORT != AW_JDWP_PORT
  {
    assert PYTHONPATH[0] == 'P' && CP_JDWP_PORT[0] == 'C' && AW_JDWP_PORT[0] == 'A';
  }

  /** The environment without the three variables the construction manages. */
  function Unmanaged(env: Env): Env {
    env - {PYTHONPATH, CP_JDWP_PORT, AW_JDWP_PORT}
  }

  /** Setting or deleting a managed variable leaves the rest of the environment alone. */
  lemma UnmanagedIgnores(env: Env, k: string, v: string)
    requires k == PYTHONPATH || k == CP_JDWP_PORT || k == AW_JDWP_PORT
    ensures Unmanaged(env[k := v]) == Unmanaged(env)
    ensures Unmanaged(env - {k}) == Unmanaged(env)
  {
    var set' := env[k := v];
    var del := env - {k};
    assert forall x :: x in Unmanaged(set') <==> x in Unmanaged(env);
    assert forall x :: x in Unmanaged(del) <==> x in Unmanaged(env);
  }

  /** The environment with the worker's PYTHONPATH set and any inherited `CP_JDWP_PORT` dropped. */
  function WithPythonPath(env: Env, root: string, sep: char, frozenPaths: seq<string>): (r: Env)
    ensures PYTHONPATH in r && r[PYTHONPATH] == PythonPath(env, root, sep, frozenPaths)
    ensures CP_JDWP_PORT !in r
    ensures AW_JDWP_PORT in r <==> AW_JDWP_PORT in env
    ensures AW_JDWP_PORT in env ==> r[AW_JDWP_PORT] == env[AW_JDWP_PORT]
    ensures Unmanaged(r) == Unmanaged(env)
  {
    ManagedNamesDistinct();
    var withPath := env[PYTHONPATH := PythonPath(env, root, sep, frozenPaths)];
    UnmanagedIgnores(env, PYTHONPATH, PythonPath(env, root, sep, frozenPaths));
    UnmanagedIgnores(withPath, CP_JDWP_PORT, "");
    withPath - {CP_JDWP_PORT}
  }

  /** The environment with `AW_JDWP_PORT` renamed to `CP_JDWP_PORT`, holding `text`. */
  function RenamePort(e: Env, text: string): (r: Env)
    ensures AW_JDWP_PORT !in r
    ensures CP_JDWP_PORT in r && r[CP_JDWP_PORT] == text
    ensures PYTHONPATH in e ==> PYTHONPATH in r && r[PYTHONPATH] == e[PYTHONPATH]
    ensures Unmanaged(r) == Unmanaged(e)
  {
    ManagedNamesDistinct();
    UnmanagedIgnores(e, AW_JDWP_PORT, text);
    UnmanagedIgnores(e - {AW_JDWP_PORT}, CP_JDWP_PORT, text);
    (e - {AW_JDWP_PORT})[CP_JDWP_PORT := text]
  }

  /** The worker environment for worker number `idx`. */
  function FindWorkerEnv(env: Env, idx: int, root: string, sep: char, frozenPaths: seq<string>): (r: Result<Env, EnvError>)
    ensures r.Failure? <==> AW_JDWP_PORT in env && ParseInt(env[AW_JDWP_PORT]).None?
    ensures r.Failure? ==> r.error == BadDebugPort(env[AW_JDWP_PORT])
    ensures r.Success? ==> PYTHONPATH in r.value && r.value[PYTHONPATH] == PythonPath(env, root, sep, frozenPaths)
    ensures r.Success? ==> AW_JDWP_PORT !in r.value
    ensures r.Success? ==> (CP_JDWP_PORT in r.value <==> AW_JDWP_PORT in env)
    ensures r.Success? && AW_JDWP_PORT in env ==>
      r.value[CP_JDWP_PORT] == IntToString(ParseInt(env[AW_JDWP_PORT]).value + idx)
    ensures r.Success? ==> Unmanaged(r.value) == Unmanaged(env)
  {
    var cleared := WithPythonPath(env, root, sep, frozenPaths);
    if AW_JDWP_PORT in cleared then
      match ParseInt(cleared[AW_JDWP_PORT])
      case None => Failure(BadDebugPort(cleared[AW_JDWP_PORT]))
      case Some(port) => Success(RenamePort(cleared, IntToString(port + idx)))
    else Success(cleared)
  }

  /** The worker's debugger port reads back as the inherited port plus the worker's index. */
  lemma DebugPortOffset(env: Env, idx: int, root: string, sep: char, frozenPaths: seq<string>)
    requires AW_JDWP_PORT in env
    requires FindWorkerEnv(env, idx, root, sep, frozenPaths).Success?
    ensures var r := FindWorkerEnv(env, idx, root, sep, frozenPaths).value;
      ParseInt(r[CP_JDWP_PORT]) == Some(ParseInt(env[AW_JDWP_PORT]).value + idx)
  {
    ParseIntOfString(ParseInt(env[AW_JDWP_PORT]).value + idx);
  }

  /** Joining a non-empty tail after a head puts one separator between them. */
  lemma {:induction false} JoinCons(head: string, rest: seq<string>, sep: char)
    requires |rest| >= 1
    ensures Join([head] + rest, sep) == head + [sep] + Join(rest, sep)
    decreases |rest|
  {
    var all := [head] + rest;
    if |rest| > 1 {
      var init := rest[..|rest| - 1];
      assert all[..|all| - 1] == [head] + init;
      JoinCons(head, init, sep);
    }
  }

  /** With no PYTHONPATH inherited, the worker's is the root directory followed by any frozen-build paths. */
  lemma PythonPathAbsent(env: Env, root: string, sep: char, frozenPaths: seq<string>)
    requires PYTHONPATH !in env
    ensures PythonPath(env, root, sep, frozenPaths) == Join([root] + frozenPaths, sep)
    ensures frozenPaths == [] ==> PythonPath(env, root, sep, frozenPaths) == root
  {
  }

  /** When the root directory is already an inherited component, only the frozen-build
      paths follow the inherited value; without them PYTHONPATH is kept as it was. */
  lemma PythonPathPresent(env: Env, root: string, sep: char, frozenPaths: seq<string>)
    requires PYTHONPATH in env && root in Split(env[PYTHONPATH], sep)
    ensures PythonPath(env, root, sep, frozenPaths) == Join([env[PYTHONPATH]] + frozenPaths, sep)
    ensures frozenPaths == [] ==> PythonPath(env, root, sep, frozenPaths) == env[PYTHONPATH]
  {
    assert AddedPaths(env, root, sep, frozenPaths) == frozenPaths;
  }

  /** Otherwise the inherited value stays in front, and the root directory and then the
      frozen-build paths follow it, one separator apart. */
  lemma PythonPathAppended(env: Env, root: string, sep: char, frozenPaths: seq<string>)
    requires PYTHONPATH in env && root !in Split(env[PYTHONPATH], sep)
    ensures PythonPath(env, root, sep, frozenPaths) == env[PYTHONPATH] + [sep] + Join([root] + frozenPaths, sep)
    ensures frozenPaths == [] ==> PythonPath(env, root, sep, frozenPaths) == env[PYTHONPATH] + [sep] + root
  {
    assert AddedPaths(env, root, sep, frozenPaths) == [root] + frozenPaths;
    JoinCons(env[PYTHONPATH], [root] + frozenPaths, sep);
  }

  /** The components of the worker's PYTHONPATH: the inherited components, then the
      root directory if it was not among them, then the frozen-build paths. */
  lemma PythonPathComponents(env: Env, root: string, sep: char, frozenPaths: seq<string>)
    requires sep !in root
    requires forall i :: 0 <= i < |frozenPaths| ==> sep !in frozenPaths[i]
    ensures Split(PythonPath(env, root, sep, frozenPaths), sep) ==
      (if PYTHONPATH in env then Split(env[PYTHONPATH], sep) else []) + AddedPaths(env, root, sep, frozenPaths)
  {
    var added := AddedPaths(env, root, sep, frozenPaths);
    assert forall i :: 0 <= i < |added| ==> sep !in added[i];
    if PYTHONPATH in env {
      var inherited := env[PYTHONPATH];
      if |added| == 0 {
        assert [inherited] + added == [inherited];
      } else {
        JoinCons(inherited, added, sep);
        SplitAround(inherited, sep, Join(added, sep));
        SplitJoin(added, sep);
      }
    } else {
      assert |added| >= 1;
      SplitJoin(added, sep);
    }
  }

  /** A root directory without the path separator is always a component of the
      worker's PYTHONPATH. */
  lemma RootOnPythonPath(env: Env, root: string, sep: char, frozenPaths: seq<string>)
    requires sep !in root
    requires forall i :: 0 <= i < |frozenPaths| ==> sep !in frozenPaths[i]
    ensures root in Split(PythonPath(env, root, sep, frozenPaths), sep)
  {
    PythonPathComponents(env, root, sep, frozenPaths);
    if PYTHONPATH in env && root in Split(env[PYTHONPATH], sep) {
    } else {
      assert AddedPaths(env, root, sep, frozenPaths)[0] == root;
    }
  }

  /** Building the worker's PYTHONPATH from an environment that already holds the
      result changes nothing: a root directory without the path separator is never
      added twice. */
  lemma PythonPathIdempotent(env: Env, root: string, sep: char)
    requires sep !in root
    ensures var once := PythonPath(env, root, sep, []);
      PythonPath(env[PYTHONPATH := once], root, sep, []) == once
  {
    var once := PythonPath(env, root, sep, []);
    RootOnPythonPath(env, root, sep, []);
    PythonPathPresent(env[PYTHONPATH := once], root, sep, []);
  }

  /** A frozen build appends its interpreter paths again every time the worker's
      PYTHONPATH is built from an environment that already holds it. */
  lemma FrozenPathsAppendedAgain(env: Env, root: string, sep: char, frozenPaths: seq<string>)
    requires sep !in root
    requires forall i :: 0 <= i < |frozenPaths| ==> sep !in frozenPaths[i]
    requires |frozenPaths| > 0
    ensures var once := PythonPath(env, root, sep, frozenPaths);
      PythonPath(env[PYTHONPATH := once], root, sep, frozenPaths) == once + [sep] + Join(frozenPaths, sep)
  {
    var once := PythonPath(env, root, sep, frozenPaths);
    RootOnPythonPath(env, root, sep, frozenPaths);
    PythonPathPresent(env[PYTHONPATH := once], root, sep, frozenPaths);
    JoinCons(once, frozenPaths, sep);
  }

  /** A root directory holding the path separator is never one of the inherited
      components, so it is appended again on every call. */
  lemma RootWithSeparatorAppendedAgain(env: Env, root: string, sep: char, frozenPaths: seq<string>)
    requires sep in root
    requires PYTHONPATH in env
    ensures PythonPath(env, root, sep, frozenPaths) == env[PYTHONPATH] + [sep] + Join([root] + frozenPaths, sep)
  {
    assert root !in Split(env[PYTHONPATH], sep);
    PythonPathAppended(env, root, sep, frozenPaths);
  }

  /** Running the whole construction on a worker environment leaves its PYTHONPATH as it was. */
  lemma WorkerEnvPythonPathStable(env: Env, idx: int, idx': int, root: string, sep: char)
    requires sep !in root
    requires FindWorkerEnv(env, idx, root, sep, []).Success?
    ensures var once := FindWorkerEnv(env, idx, root, sep, []).value;
      var twice := FindWorkerEnv(once, idx', root, sep, []);
      twice.Success? && twice.value[PYTHONPATH] == once[PYTHONPATH]
  {
    var once := FindWorkerEnv(env, idx, root, sep, []).value;
    PythonPathIdempotent(env, root, sep);
    assert once == once[PYTHONPATH := PythonPath(env, root, sep, [])];
  }
}
