# Legacy module info: jar-name inference and the registration extension

This project models the configuration side of a Gradle plugin that adds a
synthetic `module-info` to legacy (non-modular) jars. A build script fills the
`legacyJavaModuleInfo { }` extension with `module(...)` calls. Each call records,
under a jar file name, the module name, the version and a customisation block
(exports, requires) for that jar. When the name and version are not given, they
are guessed from the jar file name: `google-cloud-storage-2.4.1.jar` becomes
module `google.cloud.storage`, version `2.4.1`.

Files:

- `wrappers.dfy`: `Option`, which stands in for nullable references.
- `java_string.dfy`: the `String` operations the inference uses. These are
  `lastIndexOf` for a string and for a character, and replacing one character
  by another. Each is specified by what it means: last occurrence, nothing after it.
  The source's `replaceAll("-", ".")` takes a regular expression, but `-` only
  matches a dash and `.` in the replacement is literal. So it is modelled as a
  plain character replacement.
- `module_info.dfy`: the `ModuleInfo` value and the customisation block, as a
  function from `ModuleInfo` to `ModuleInfo`. `None` stands for a `null` block.
- `inference.dfy`: the jar-name inference with its three warning outcomes,
  and its characterisation by "conventional splits" of the jar name.
- `extension.dfy`: the registry (`moduleInfo` and `automaticModules` maps), the
  three registration shapes, and runs of whole sequences of registrations.

Of the three warnings in `module(jarName, conf)`, the third one, "No dot found
in jarName" (`LegacyModuleInfoPluginExtension.java:53-54`), can never be logged.
Reaching it would need the last dash and the last `.jar` to start at the same
index, and one position cannot hold both `-` and `.`. A name with a dash after its
first character but no `.jar`, such as `name-1.0`, has `lastIndexOf(".jar") == -1`, which is below the
last dash. So it gets "Last dash comes after the last dot" (`:51-52`).
`MissingExtensionExample` and `NoDotNeverReported` state this.

## Model

| member | source | states |
|---|---|---|
| JavaString.LastIndexOf | src/main/java/com/legyver/gradle/legacymod/LegacyModuleInfoPluginExtension.java:43 | the result is -1 or a start index of the needle, and no occurrence starts after it |
| JavaString.LastIndexOfChar | src/main/java/com/legyver/gradle/legacymod/LegacyModuleInfoPluginExtension.java:42 | the result is -1 or an index holding the character, and no later index holds it |
| JavaString.LastIndexOfUnique | src/main/java/com/legyver/gradle/legacymod/LegacyModuleInfoPluginExtension.java:43 | any occurrence with no occurrence after it is the one `lastIndexOf` returns |
| JavaString.ReplaceChar | src/main/java/com/legyver/gradle/legacymod/LegacyModuleInfoPluginExtension.java:47 | same length; each `-` becomes `.` and every other character stays in place |
| JavaString.ReplaceCharRemoves | src/main/java/com/legyver/gradle/legacymod/LegacyModuleInfoPluginExtension.java:47 | after the replacement no `-` is left in the module name |
| Inference.InferModule | src/main/java/com/legyver/gradle/legacymod/LegacyModuleInfoPluginExtension.java:41-55 | on success the jar name is name segment, dash, version, then a `.jar`; name and version contain no dash; "no dot" is never reported |
| Inference.InferSucceedsIff | src/main/java/com/legyver/gradle/legacymod/LegacyModuleInfoPluginExtension.java:42-48 | inference succeeds iff the jar name has a dash after index 0 with no dash after it, and a `.jar` after that dash with no `.jar` after it; then the name is the text before that dash with dashes turned into dots, and the version is the text between the dash and the `.jar` |
| Inference.InferredIsConventional | src/main/java/com/legyver/gradle/legacymod/LegacyModuleInfoPluginExtension.java:46-48 | every successful inference splits the jar name as prefix + `-` + version + tail, where the tail starts with the last `.jar` and has no dash |
| Inference.ConventionalIsInferred | src/main/java/com/legyver/gradle/legacymod/LegacyModuleInfoPluginExtension.java:46-48 | every such conventional split is exactly what the inference returns |
| Inference.InferredIffConventional | src/main/java/com/legyver/gradle/legacymod/LegacyModuleInfoPluginExtension.java:41-48 | both directions: the inference returns (name, version) iff a conventional split with that version and dotted prefix exists |
| Inference.NoDashIff | src/main/java/com/legyver/gradle/legacymod/LegacyModuleInfoPluginExtension.java:49-50 | "no dash" is reported iff no dash stands after index 0, so a lone leading dash counts as none |
| Inference.DashAfterDotIff | src/main/java/com/legyver/gradle/legacymod/LegacyModuleInfoPluginExtension.java:51-52 | "dash after dot" is reported iff some dash after index 0 has no `.jar` starting after it, including names with no `.jar` at all |
| Inference.NoDotNeverReported | src/main/java/com/legyver/gradle/legacymod/LegacyModuleInfoPluginExtension.java:53-54 | every outcome is a success, "no dash" or "dash after dot"; the "no dot found" branch is unreachable |
| Inference.StandardJarName | src/main/java/com/legyver/gradle/legacymod/LegacyModuleInfoPluginExtension.java:29-48 | any `<prefix>-<version>.jar` with a non-empty prefix and a dash-free version infers the dotted prefix and that version |
| Inference.GoogleCloudStorageExample | src/main/java/com/legyver/gradle/legacymod/LegacyModuleInfoPluginExtension.java:31-37 | the doc-comment example: `google-cloud-storage-2.4.1.jar` gives `google.cloud.storage` and `2.4.1` |
| Inference.EmbeddedDashExample | src/main/java/com/legyver/gradle/legacymod/LegacyModuleInfoPluginExtension.java:46-48 | `a-b-1.2.3.jar` gives `a.b` and `1.2.3`: only the last dash splits |
| Inference.PlainNameExample | src/main/java/com/legyver/gradle/legacymod/LegacyModuleInfoPluginExtension.java:49-50 | `plainname.jar` gives the "no dash" warning |
| Inference.LeadingDashExample | src/main/java/com/legyver/gradle/legacymod/LegacyModuleInfoPluginExtension.java:46-50 | `-1.0.jar`, whose only dash is at index 0, gives the "no dash" warning |
| Inference.MissingExtensionExample | src/main/java/com/legyver/gradle/legacymod/LegacyModuleInfoPluginExtension.java:51-54 | `name-1.0` gives "dash after dot", not "no dot found" |
| Extension.Register | src/main/java/com/legyver/gradle/legacymod/LegacyModuleInfoPluginExtension.java:66-73 | the jar maps to the customised (or, for a null block, untouched) fresh ModuleInfo; every other key and the automatic-module map are unchanged |
| Extension.RegisterPlain | src/main/java/com/legyver/gradle/legacymod/LegacyModuleInfoPluginExtension.java:25-27 | the jar maps to `NewModuleInfo(name, version)`, the uncustomised value the constructor builds, exactly what the four-argument form gives with a null customiser; nothing else changes |
| Extension.RegisterInferred | src/main/java/com/legyver/gradle/legacymod/LegacyModuleInfoPluginExtension.java:41-57 | a warning is logged iff inference fails, and it is the warning the classification chose, never "no dot"; the jar is registered either way, with the guesses on success and null name and version on failure |
| Extension.LastWriteWins | src/main/java/com/legyver/gradle/legacymod/LegacyModuleInfoPluginExtension.java:72 | registering a jar twice leaves exactly the second registration |
| Extension.DistinctJarsCommute | src/main/java/com/legyver/gradle/legacymod/LegacyModuleInfoPluginExtension.java:72 | registrations of different jars can be swapped |
| Extension.LastCallFor | src/main/java/com/legyver/gradle/legacymod/LegacyModuleInfoPluginExtension.java:72 | helper used to state RunLookup, modelling no source line of its own: the index found is a call that registers the jar, and no later call does; None means no call registers it |
| Extension.ApplyEffect | src/main/java/com/legyver/gradle/legacymod/LegacyModuleInfoPluginExtension.java:25-73 | each registration shape puts its own entry under its jar and leaves all other jars and the automatic-module map alone |
| Extension.RunLookup | src/main/java/com/legyver/gradle/legacymod/LegacyModuleInfoPluginExtension.java:66-73 | after any sequence of registrations, a jar holds the entry of the last call that registered it, else its earlier entry |
| Extension.RunKeepsAutomaticModules | src/main/java/com/legyver/gradle/legacymod/LegacyModuleInfoPluginExtension.java:20-73 | no sequence of registrations changes the automatic-module map |
| Extension.AutomaticModulesStayEmpty | src/main/java/com/legyver/gradle/legacymod/LegacyModuleInfoPluginExtension.java:79-81 | starting from a new extension, the automatic-module map read by its getter stays empty |

## Left out

- The plugin entry point (`LegacyModuleInfoPlugin`) is left out. It only registers the extension, sets the `javaModule` attribute on configurations and on the `jar` artifact type, and registers the transform, all through Gradle APIs.
- The check of which configurations are resolving Java-plugin classpaths is left out. It compares names against Gradle `JavaPlugin` constants whose values are not part of this model.
- `LegacyModuleInfoTransform` and `ModuleInfo`'s own API (adding exports and requires) are not part of this model. Writing the `module-info.class` and rewriting jars is left out too: that is bytecode generation and file I/O.
- The customisation block is a function from `ModuleInfo` to `ModuleInfo`, so two assumptions are built in. First, the block returns normally. In Java a block that throws skips the `put` at line 72 and the exception reaches the caller. Second, the block acts only through the value it returns. Java stores the same mutable object the block received (lines 68-72), so a block that keeps a reference can change the registered entry later.
- `ModuleInfo.java` is not part of this model. Its `exports` and `requirements` fields, and the assumption that `new ModuleInfo(name, version)` starts with both empty (`NewModuleInfo`), come from the model, not from visible source.
- Logging is left out. The three `logger.warn` calls become the returned `Warning`, and the `logger.info` call in the four-argument form is dropped.
- The two getters are the destructors `Extension.moduleInfo` and `Extension.automaticModules`. The maps are values, so the aliasing of the Java `HashMap`s that the getters return, and their iteration order, are not modelled.
- `null` jar names are left out in all three forms. In `module(jarName, conf)`, `lastIndexOf` on a null name would throw (line 42). The three- and four-argument forms accept a null jar name, and `HashMap.put` stores the entry under the null key (line 72). In the model a jar name is always a string.
- `JavaString.LastIndexOfChar` stands for `String.lastIndexOf(char)` over `char` values. Java's code-point handling of supplementary characters plays no role for `-`.

