/**
 The `legacyJavaModuleInfo { }` extension: a registry from jar file name to the
 module information to add to that jar, filled by the three `module(...)`
 registration shapes, plus an automatic-module map that no registration writes.
 The Java object's two mutable maps become an immutable value threaded through
 pure update functions; the two getters are the datatype's destructors.
 */
module Extension {
  import opened Wrappers
  import opened ModuleInfos
  import opened Inference

  datatype Extension = Extension(
    moduleInfo: map<string, ModuleInfo>,
    automaticModules: map<string, string>)

  /** A freshly created extension: both maps empty. */
  const Empty: Extension := Extension(map[], map[])

  /** The entry registered for `jarName`, if any (`moduleInfo.get(jarName)`). */
  function Lookup(ext: Extension, jarName: string): Option<ModuleInfo> {
    if jarName in ext.moduleInfo then Some(ext.moduleInfo[jarName]) else None
  }

  /**
   `module(jarName, moduleName, moduleVersion, conf)`: a new `ModuleInfo` with
   the given (possibly null) name and version, customised by `conf` when it is
   not null, is put under `jarName`; any earlier entry for that jar is replaced,
   every other entry and the automatic-module map are kept.
   */
  function Register(ext: Extension, jarName: string, moduleName: Option<string>,
                    moduleVersion: Option<string>, conf: Option<Customiser>): (e: Extension)
    ensures e.moduleInfo.Keys == ext.moduleInfo.Keys + {jarName}
    ensures Lookup(e, jarName) == Some(Configure(NewModuleInfo(moduleName, moduleVersion), conf))
    ensures forall k :: k != jarName ==> Lookup(e, k) == Lookup(ext, k)
    ensures e.automaticModules == ext.automaticModules
  {
    var info := Configure(NewModuleInfo(moduleName, moduleVersion), conf);
    ext.(moduleInfo := ext.moduleInfo[jarName := info])
  }

  /**
   `module(jarName, moduleName, moduleVersion)`: registers the uncustomised
   `ModuleInfo`, with no exports and no requires.
   */
  function RegisterPlain(ext: Extension, jarName: string, moduleName: Option<string>,
                         moduleVersion: Option<string>): (e: Extension)
    ensures e.moduleInfo.Keys == ext.moduleInfo.Keys + {jarName}
    ensures Lookup(e, jarName) == Some(NewModuleInfo(moduleName, moduleVersion))
    ensures forall k :: k != jarName ==> Lookup(e, k) == Lookup(ext, k)
    ensures e.automaticModules == ext.automaticModules
  {
    Register(ext, jarName, moduleName, moduleVersion, None)
  }

  /** The name guessed from a jar name, `null` when inference failed. */
  function NameGuess(guess: Guess): Option<string> {
    if guess.Inferred? then Some(guess.name) else None
  }

  /** The version guessed from a jar name, `null` when inference failed. */
  function VersionGuess(guess: Guess): Option<string> {
    if guess.Inferred? then Some(guess.version) else None
  }

  /** What `module(jarName, conf)` leaves behind: the new extension and the warning it logged, if any. */
  datatype Registration = Registration(ext: Extension, warning: Option<Warning>)

  /**
   `module(jarName, conf)`: infers name and version from the jar name and
   registers them. A failed inference only logs a warning; the jar is still
   registered, with name and version left null.
   */
  function RegisterInferred(ext: Extension, jarName: string, conf: Option<Customiser>): (r: Registration)
    ensures r.ext.moduleInfo.Keys == ext.moduleInfo.Keys + {jarName}
    ensures forall k :: k != jarName ==> Lookup(r.ext, k) == Lookup(ext, k)
    ensures r.ext.automaticModules == ext.automaticModules
    ensures r.warning.None? <==> InferModule(jarName).Inferred?
    ensures InferModule(jarName).Unparsed? ==> r.warning == Some(InferModule(jarName).warning)
    ensures r.warning != Some(NoDot)
    ensures r.warning.None? ==>
      Lookup(r.ext, jarName) == Some(Configure(NewModuleInfo(Some(InferModule(jarName).name), Some(InferModule(jarName).version)), conf))
    ensures r.warning.Some? ==>
      Lookup(r.ext, jarName) == Some(Configure(NewModuleInfo(None, None), conf))
  {
    var guess := InferModule(jarName);
    var warning := if guess.Unparsed? then Some(guess.warning) else None;
    Registration(Register(ext, jarName, NameGuess(guess), VersionGuess(guess), conf), warning)
  }

  /** Registering the same jar twice keeps only the second registration. */
  lemma LastWriteWins(ext: Extension, jarName: string,
                      n1: Option<string>, v1: Option<string>, c1: Option<Customiser>,
                      n2: Option<string>, v2: Option<string>, c2: Option<Customiser>)
    ensures Register(Register(ext, jarName, n1, v1, c1), jarName, n2, v2, c2)
         == Register(ext, jarName, n2, v2, c2)
  {
  }

  /** Registrations of different jars do not interfere, so their order does not matter. */
  lemma DistinctJarsCommute(ext: Extension,
                            j1: string, n1: Option<string>, v1: Option<string>, c1: Option<Customiser>,
                            j2: string, n2: Option<string>, v2: Option<string>, c2: Option<Customiser>)
    requires j1 != j2
    ensures Register(Register(ext, j1, n1, v1, c1), j2, n2, v2, c2)
         == Register(Register(ext, j2, n2, v2, c2), j1, n1, v1, c1)
  {
  }

  /** The three registration shapes, as a build script may call them. */
  datatype Call =
    | Plain(jarName: string, moduleName: Option<string>, moduleVersion: Option<string>)
    | Full(jarName: string, moduleName: Option<string>, moduleVersion: Option<string>, conf: Option<Customiser>)
    | ByJarName(jarName: string, conf: Option<Customiser>)

  /** The effect of one call on the extension. */
  function Apply(ext: Extension, call: Call): Extension {
    match call
    case Plain(j, n, v) => RegisterPlain(ext, j, n, v)
    case Full(j, n, v, c) => Register(ext, j, n, v, c)
    case ByJarName(j, c) => RegisterInferred(ext, j, c).ext
  }

  /** The entry one call puts under its jar, independent of what was there before. */
  function EntryOf(call: Call): ModuleInfo {
    match call
    case Plain(_, n, v) => NewModuleInfo(n, v)
    case Full(_, n, v, c) => Configure(NewModuleInfo(n, v), c)
    case ByJarName(j, c) =>
      var guess := InferModule(j);
      Configure(NewModuleInfo(NameGuess(guess), VersionGuess(guess)), c)
  }

  /** The calls in order, as a build script's configuration block runs them. */
  function Run(ext: Extension, calls: seq<Call>): Extension
    decreases |calls|
  {
    if calls == [] then ext
    else Apply(Run(ext, calls[..|calls| - 1]), calls[|calls| - 1])
  }

  /** The index of the last call that registers `jarName`, if there is one. */
  function LastCallFor(calls: seq<Call>, jarName: string): (r: Option<nat>)
    ensures r.Some? ==> r.value < |calls| && calls[r.value].jarName == jarName
    ensures r.Some? ==> forall i :: r.value < i < |calls| ==> calls[i].jarName != jarName
    ensures r.None? ==> forall i :: 0 <= i < |calls| ==> calls[i].jarName != jarName
    decreases |calls|
  {
    if calls == [] then None
    else if calls[|calls| - 1].jarName == jarName then Some(|calls| - 1)
    else LastCallFor(calls[..|calls| - 1], jarName)
  }

  /** One call puts `EntryOf(call)` under its jar and touches nothing else. */
  lemma ApplyEffect(ext: Extension, call: Call)
    ensures Lookup(Apply(ext, call), call.jarName) == Some(EntryOf(call))
    ensures forall k :: k != call.jarName ==> Lookup(Apply(ext, call), k) == Lookup(ext, k)
    ensures Apply(ext, call).automaticModules == ext.automaticModules
  {
  }

  /**
   Last write wins over a whole configuration block: after any sequence of
   calls, a jar maps to the entry of the last call that registered it, and a
   jar no call registered keeps its earlier entry (or stays absent).
   */
  lemma {:induction false} RunLookup(ext: Extension, calls: seq<Call>, jarName: string)
    ensures LastCallFor(calls, jarName).Some? ==>
      Lookup(Run(ext, calls), jarName) == Some(EntryOf(calls[LastCallFor(calls, jarName).value]))
    ensures LastCallFor(calls, jarName).None? ==>
      Lookup(Run(ext, calls), jarName) == Lookup(ext, jarName)
    decreases |calls|
  {
    if calls != [] {
      var init := calls[..|calls| - 1];
      var last := calls[|calls| - 1];
      assert calls == init + [last];
      RunLookup(ext, init, jarName);
      ApplyEffect(Run(ext, init), last);
      if last.jarName == jarName {
        assert LastCallFor(calls, jarName) == Some(|calls| - 1);
      } else {
        assert LastCallFor(calls, jarName) == LastCallFor(init, jarName);
      }
    }
  }

  /** No registration writes the automatic-module map. */
  lemma {:induction false} RunKeepsAutomaticModules(ext: Extension, calls: seq<Call>)
    ensures Run(ext, calls).automaticModules == ext.automaticModules
    decreases |calls|
  {
    if calls != [] {
      RunKeepsAutomaticModules(ext, calls[..|calls| - 1]);
      ApplyEffect(Run(ext, calls[..|calls| - 1]), calls[|calls| - 1]);
    }
  }

  /** Starting from a fresh extension, the automatic-module map stays empty. */
  lemma AutomaticModulesStayEmpty(calls: seq<Call>)
    ensures Run(Empty, calls).automaticModules == map[]
  {
    RunKeepsAutomaticModules(Empty, calls);
  }
}
