/**
 The module information recorded for one jar: the value a registration creates
 and hands to the build script's customisation block.
 */
module ModuleInfos {
  import opened Wrappers

  /** One `requires` directive of the synthesised descriptor. */
  datatype Requirement = Requirement(moduleName: string, optional: bool, transitive: bool)

  /**
   Name and version may be absent (`null`) when inference failed; exports and
   requires are the extra data a customisation block adds.
   */
  datatype ModuleInfo = ModuleInfo(
    name: Option<string>,
    version: Option<string>,
    exports: seq<string>,
    requirements: seq<Requirement>)

  /**
   A Gradle `Action<? super ModuleInfo>`: it may change the fresh value in any
   way, so it is modelled as an arbitrary function; `None` is a `null` action.
   */
  type Customiser = ModuleInfo -> ModuleInfo

  /**
   `new ModuleInfo(name, version)`. The class itself is not part of this model;
   that a new value has nothing exported and nothing required is assumed here.
   */
  function NewModuleInfo(name: Option<string>, version: Option<string>): ModuleInfo {
    ModuleInfo(name, version, [], [])
  }

  /** Runs the customisation block on `info`, or leaves it alone for a `null` block. */
  function Configure(info: ModuleInfo, conf: Option<Customiser>): ModuleInfo {
    match conf
    case None => info
    case Some(f) => f(info)
  }
}
