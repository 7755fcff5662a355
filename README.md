# GraphAware runtime kernel extension: module discovery and registration

A model of how the GraphAware Framework's Neo4j kernel extension (`RuntimeKernelExtension`)
finds the runtime modules declared in the database configuration and registers them with a
freshly created GraphAware runtime when the database starts.

- `wrappers.dfy`: `Option`.
- `configuration.dfy`: the raw configuration, a sequence of `(key, raw value)` pairs in the
  iteration order of the key set; a missing raw value is `None`.
- `module_key.dfy` (module `ModuleKey`): the declaration pattern
  `com.graphaware.module.<id>.<order>` as `Matcher.find()` applies it. The match is the leftmost
  occurrence anywhere in the key. Group 1 is the whole alphanumeric run and group 2 the whole
  digit run, and trailing text is allowed. The module also parses the order with
  `Integer.valueOf`, which fails beyond 2^31 - 1. A matching-free reference predicate
  (`MatchesAt`) is proved equivalent to the matcher.
- `bootstrappers.dfy` (module `Bootstrappers`): `findOrderedBootstrappers`. It yields one
  `(order, id, bootstrapper class)` entry per declaration key and sorts the list stably by order.
- `module_config.dfy` (module `ModuleConfig`): `findModuleConfig`. It selects the keys a module
  is given, renames them with `String.replace`, and lets the last writer win.
- `kernel_extension.dfy` (module `KernelExtension`): `registerModules` and `start`.
  - `Runtime` is the runtime's module registry.
  - `RuntimeKernelExtension` holds the configuration, the enabled flag and the classes reachable by
    name (`Classpath`). It also keeps a ghost log of every registration attempt: the entry, whether
    it logged an order-clash warning, and the outcome.
- `scenario.dfy` (module `Scenario`): the configuration example of the class comment,
  generalised to any ids, orders and setting names, and what discovery and `findModuleConfig`
  make of it.

Where the code and the class comment of `RuntimeKernelExtension` (RuntimeKernelExtension.java:50-69) disagree, the model follows the code:

- A module's configuration holds more than its own settings. A key is left out exactly when it
  declares a module and does not start with `com.graphaware.module.<id>.`; usually that is
  another module's declaration key, but `x.com.graphaware.module.A.1` is left out of A's own
  configuration, and `com.graphaware.module.A.com.graphaware.module.B.1`, which declares B, is
  kept for A. Every other key is included. A key that declares no module is stored with every
  occurrence of the module's prefix cut out, so it is unchanged unless the prefix occurs in it
  (`my.com.graphaware.module.A.x` reaches A as `my.x`). A module's declaration key of the form
  `com.graphaware.module.<id>.<order>` is stored under the order digits (`"1"`); with trailing
  text it is stored under the digits and that text (`com.graphaware.module.A.1x` becomes `1x`).
  The settings of *other* modules reach a module under their full names
  (`com.graphaware.module.A.threshold` reaches module B unchanged)
  (`Scenario.ScenarioConfigOfA`, `Scenario.ScenarioConfigOfB`, `ModuleConfig.EmbeddedPrefixCut`).
- A key with text after the order digits (`com.graphaware.module.A.1x`,
  `com.graphaware.module.A.1.extra`) is a declaration. This is because `find()` does not need to
  match the whole key.
- An order that does not fit in an `int` is not skipped. `Integer.valueOf` throws a
  `NumberFormatException` outside the `try` block, and it propagates out of `start` to its
  caller: the runtime has been created, no module is registered and the starter thread is never
  started. The model's `OrderOutOfRange` outcome stands for that thrown exception.

## Model

| member | source | states |
|---|---|---|
| ModuleKey.MatchAt | runtime/src/main/java/com/graphaware/runtime/bootstrap/RuntimeKernelExtension.java:82 | the pattern tried at one position: when it matches, the match starts there, group 1 is a non-empty alphanumeric run and group 2 a non-empty digit run |
| ModuleKey.MatchAtSound | runtime/src/main/java/com/graphaware/runtime/bootstrap/RuntimeKernelExtension.java:82 | what the matcher finds at a position is an occurrence of the pattern whose digit group cannot be extended |
| ModuleKey.MatchAtComplete | runtime/src/main/java/com/graphaware/runtime/bootstrap/RuntimeKernelExtension.java:82 | wherever the pattern occurs, the matcher finds a match with that same id and at least those digits |
| ModuleKey.FindFrom | runtime/src/main/java/com/graphaware/runtime/bootstrap/RuntimeKernelExtension.java:169 | find() from a position: the first position from there on where the pattern matches; its properties are FindFromFound and FindFromSkips |
| ModuleKey.FindDecl | runtime/src/main/java/com/graphaware/runtime/bootstrap/RuntimeKernelExtension.java:167-169 | MODULE_ENABLED_KEY.matcher(key).find() and its groups: on success group 1 is a non-empty alphanumeric id and group 2 a non-empty digit string |
| ModuleKey.FindFromFound | runtime/src/main/java/com/graphaware/runtime/bootstrap/RuntimeKernelExtension.java:169 | what find() reports is the match at a position at or after where the search began |
| ModuleKey.FindFromSkips | runtime/src/main/java/com/graphaware/runtime/bootstrap/RuntimeKernelExtension.java:169 | find() passes over no position where the pattern matches: none before the one it reports, none at all when it reports nothing |
| ModuleKey.FindDeclSpec | runtime/src/main/java/com/graphaware/runtime/bootstrap/RuntimeKernelExtension.java:82 | a key is a declaration iff the pattern occurs somewhere in it; the groups come from the leftmost occurrence, the id is the only one possible there and the digits are maximal |
| ModuleKey.DeclarationWithTrailingText | runtime/src/main/java/com/graphaware/runtime/bootstrap/RuntimeKernelExtension.java:82 | a key made of the prefix, an alphanumeric id, a dot and digits, followed by anything that does not start with a digit, declares that id with those digits |
| ModuleKey.TrailingTextExamples | runtime/src/main/java/com/graphaware/runtime/bootstrap/RuntimeKernelExtension.java:82 | com.graphaware.module.A.1x and com.graphaware.module.A.1.extra both declare module A with order digits 1 |
| ModuleKey.SettingKeyExample | runtime/src/main/java/com/graphaware/runtime/bootstrap/RuntimeKernelExtension.java:82 | com.graphaware.module.A.threshold declares no module |
| ModuleKey.NoOccurrenceWithoutPrefixStart | runtime/src/main/java/com/graphaware/runtime/bootstrap/RuntimeKernelExtension.java:169 | a key without a 'c' from a position on has no match from there |
| ModuleKey.ParseOrder | runtime/src/main/java/com/graphaware/runtime/bootstrap/RuntimeKernelExtension.java:171 | Integer.valueOf of the digit group succeeds iff its decimal value is at most 2^31 - 1, and then yields that value |
| ModuleKey.DecimalValueBound | runtime/src/main/java/com/graphaware/runtime/bootstrap/RuntimeKernelExtension.java:171 | n digits denote a value below 10^n |
| ModuleKey.LeadingZeroIgnored | runtime/src/main/java/com/graphaware/runtime/bootstrap/RuntimeKernelExtension.java:171 | a leading zero does not change the order (order 01 is order 1) |
| ModuleKey.ShortOrderParses | runtime/src/main/java/com/graphaware/runtime/bootstrap/RuntimeKernelExtension.java:171 | an order of at most nine digits always parses |
| Bootstrappers.EntryOf | runtime/src/main/java/com/graphaware/runtime/bootstrap/RuntimeKernelExtension.java:170-173 | a declaration key's entry has the parsed order (between 0 and 2^31 - 1), group 1 as id, and the raw value or "UNKNOWN" as bootstrapper |
| Bootstrappers.Discover | runtime/src/main/java/com/graphaware/runtime/bootstrap/RuntimeKernelExtension.java:166-175 | the list the discovery loop builds: None once an order overflows, otherwise at most one entry per key, every order between 0 and 2^31 - 1 |
| Bootstrappers.DeclIndicesSpec | runtime/src/main/java/com/graphaware/runtime/bootstrap/RuntimeKernelExtension.java:166-169 | the declaration positions are increasing and are exactly the keys that declare a module |
| Bootstrappers.DiscoverAborts | runtime/src/main/java/com/graphaware/runtime/bootstrap/RuntimeKernelExtension.java:171 | once an order overflows, the keys after it cannot undo the failure |
| Bootstrappers.DiscoverFailsIff | runtime/src/main/java/com/graphaware/runtime/bootstrap/RuntimeKernelExtension.java:166-175 | discovery fails iff some declaration key carries an order beyond the int range |
| Bootstrappers.DiscoverEntries | runtime/src/main/java/com/graphaware/runtime/bootstrap/RuntimeKernelExtension.java:166-175 | discovery yields exactly one entry per declaration key, the j-th entry from the j-th declaration key |
| Bootstrappers.Insert | runtime/src/main/java/com/graphaware/runtime/bootstrap/RuntimeKernelExtension.java:177 | one insertion step of the sort; InsertAddsOne, InsertKeepsSorted and InsertWithOrder state what it does |
| Bootstrappers.SortByOrder | runtime/src/main/java/com/graphaware/runtime/bootstrap/RuntimeKernelExtension.java:177 | Collections.sort by order yields a permutation of its input |
| Bootstrappers.InsertAddsOne | runtime/src/main/java/com/graphaware/runtime/bootstrap/RuntimeKernelExtension.java:177 | inserting adds exactly the inserted entry |
| Bootstrappers.InsertKeepsSorted | runtime/src/main/java/com/graphaware/runtime/bootstrap/RuntimeKernelExtension.java:177 | inserting into a list sorted by order keeps it sorted |
| Bootstrappers.InsertWithOrder | runtime/src/main/java/com/graphaware/runtime/bootstrap/RuntimeKernelExtension.java:177 | inserting puts the entry before every entry of the same order and moves no other entry of any order |
| Bootstrappers.SortIsSorted | runtime/src/main/java/com/graphaware/runtime/bootstrap/RuntimeKernelExtension.java:177 | the sort by order yields a list sorted by order |
| Bootstrappers.SortIsStable | runtime/src/main/java/com/graphaware/runtime/bootstrap/RuntimeKernelExtension.java:177 | the sort keeps entries of equal order in their original relative order |
| Bootstrappers.FindOrderedBootstrappers | runtime/src/main/java/com/graphaware/runtime/bootstrap/RuntimeKernelExtension.java:163-180 | fails iff some order overflows; otherwise returns the discovered entries sorted by order, as a permutation, with equal orders in key order |
| ModuleConfig.RemoveAllWithoutOccurrence | runtime/src/main/java/com/graphaware/runtime/bootstrap/RuntimeKernelExtension.java:188 | String.replace leaves a key in which the prefix does not occur unchanged |
| ModuleConfig.RemoveAll | runtime/src/main/java/com/graphaware/runtime/bootstrap/RuntimeKernelExtension.java:188 | String.replace with an empty replacement never makes a key longer |
| ModuleConfig.RemoveAllKeepsText | runtime/src/main/java/com/graphaware/runtime/bootstrap/RuntimeKernelExtension.java:188 | String.replace keeps the text before the first occurrence of the prefix as it is and goes on after it |
| ModuleConfig.RemoveAllFirstOccurrence | runtime/src/main/java/com/graphaware/runtime/bootstrap/RuntimeKernelExtension.java:188 | String.replace cuts out the first occurrence of the prefix wherever it stands and goes on with the rest |
| ModuleConfig.RemoveAllEveryOccurrence | runtime/src/main/java/com/graphaware/runtime/bootstrap/RuntimeKernelExtension.java:188 | String.replace removes a repeated prefix as well, not only its first occurrence |
| ModuleConfig.Included | runtime/src/main/java/com/graphaware/runtime/bootstrap/RuntimeKernelExtension.java:187 | the condition of findModuleConfig: the key starts with the module's prefix or declares no module |
| ModuleConfig.OwnDeclarationStoredUnderOrder | runtime/src/main/java/com/graphaware/runtime/bootstrap/RuntimeKernelExtension.java:187-188 | the key com.graphaware.module.<id>.<digits> is included for <id> and stored under <digits> |
| ModuleConfig.OtherPrefixMismatch | runtime/src/main/java/com/graphaware/runtime/bootstrap/RuntimeKernelExtension.java:187 | another module's declaration key never starts with this module's prefix |
| ModuleConfig.OtherDeclarationExcluded | runtime/src/main/java/com/graphaware/runtime/bootstrap/RuntimeKernelExtension.java:187 | another module's declaration key is not included |
| ModuleConfig.OwnSettingStripped | runtime/src/main/java/com/graphaware/runtime/bootstrap/RuntimeKernelExtension.java:187-188 | a module's own setting com.graphaware.module.id.name is included under name |
| ModuleConfig.UndeclaredKeyShared | runtime/src/main/java/com/graphaware/runtime/bootstrap/RuntimeKernelExtension.java:187-188 | a key that declares no module is included for every module, unchanged unless the module's prefix occurs in it |
| ModuleConfig.EmbeddedPrefixCut | runtime/src/main/java/com/graphaware/runtime/bootstrap/RuntimeKernelExtension.java:187-188 | a key that declares no module but holds the module's prefix after other text is included with that prefix cut out (my.com.graphaware.module.A.x is stored for A as my.x) |
| ModuleConfig.LastWriterExtends | runtime/src/main/java/com/graphaware/runtime/bootstrap/RuntimeKernelExtension.java:186-189 | a key stays the last writer of a name when a key stored under another name follows |
| ModuleConfig.ScopedConfig | runtime/src/main/java/com/graphaware/runtime/bootstrap/RuntimeKernelExtension.java:186-189 | the map the findModuleConfig loop builds: None once an included key has no value, otherwise every value is the raw value of some included key |
| ModuleConfig.ScopedConfigAborts | runtime/src/main/java/com/graphaware/runtime/bootstrap/RuntimeKernelExtension.java:188 | once Optional.get has thrown, the keys after it cannot undo the failure |
| ModuleConfig.ScopedConfigFailsIff | runtime/src/main/java/com/graphaware/runtime/bootstrap/RuntimeKernelExtension.java:186-190 | building a module's configuration fails iff some included key has no raw value |
| ModuleConfig.ScopedConfigKeys | runtime/src/main/java/com/graphaware/runtime/bootstrap/RuntimeKernelExtension.java:186-190 | the configuration holds a name iff some included key is stored under it |
| ModuleConfig.ScopedConfigValues | runtime/src/main/java/com/graphaware/runtime/bootstrap/RuntimeKernelExtension.java:186-190 | each name holds the raw value of the last included key stored under it |
| ModuleConfig.FindModuleConfig | runtime/src/main/java/com/graphaware/runtime/bootstrap/RuntimeKernelExtension.java:182-193 | fails iff an included key has no raw value; otherwise holds exactly the stored names of the included keys, each with the value of its last writer |
| KernelExtension.BootstrapOne | runtime/src/main/java/com/graphaware/runtime/bootstrap/RuntimeKernelExtension.java:154-159 | one try block: the module is built iff the class is a bootstrapper, the module's configuration is complete and bootstrapModule succeeds; each failure names the first step that failed |
| KernelExtension.Attempts | runtime/src/main/java/com/graphaware/runtime/bootstrap/RuntimeKernelExtension.java:143-160 | the iterations of the registration loop: one attempt per entry |
| KernelExtension.RegisteredModules | runtime/src/main/java/com/graphaware/runtime/bootstrap/RuntimeKernelExtension.java:156 | the modules handed to registerModule: never more than the attempts |
| KernelExtension.AttemptsCoverEntries | runtime/src/main/java/com/graphaware/runtime/bootstrap/RuntimeKernelExtension.java:144-160 | every entry is attempted exactly once, in order; each outcome depends only on its own entry, and the warning compares with the order seen last |
| KernelExtension.ClashWarningIff | runtime/src/main/java/com/graphaware/runtime/bootstrap/RuntimeKernelExtension.java:143-152 | with lastOrder starting at -1, entry i warns iff i > 0 and its order equals that of entry i - 1 |
| KernelExtension.PlannedClashWarningIff | runtime/src/main/java/com/graphaware/runtime/bootstrap/RuntimeKernelExtension.java:143-152 | for the sorted entries start() registers, the clash warning fires exactly on an entry whose order repeats the previous entry's order |
| KernelExtension.AttemptsStep | runtime/src/main/java/com/graphaware/runtime/bootstrap/RuntimeKernelExtension.java:144-160 | one loop iteration attempts the next entry and remembers its order as the last order |
| KernelExtension.LoopStep | runtime/src/main/java/com/graphaware/runtime/bootstrap/RuntimeKernelExtension.java:144-160 | one iteration moves the next planned attempt to the log and registers its module only if it bootstrapped |
| KernelExtension.RegisteredModulesAppend | runtime/src/main/java/com/graphaware/runtime/bootstrap/RuntimeKernelExtension.java:156 | the modules registered by consecutive runs of attempts are those of each run, in order |
| KernelExtension.RegisteredModulesAreSuccesses | runtime/src/main/java/com/graphaware/runtime/bootstrap/RuntimeKernelExtension.java:154-159 | exactly the modules of successful attempts are registered, never more modules than attempts |
| KernelExtension.Runtime.constructor | runtime/src/main/java/com/graphaware/runtime/bootstrap/RuntimeKernelExtension.java:116 | a new runtime has no modules |
| KernelExtension.Runtime.RegisterModule | runtime/src/main/java/com/graphaware/runtime/bootstrap/RuntimeKernelExtension.java:156 | a registered module joins the registry after those registered before it |
| KernelExtension.RuntimeKernelExtension.constructor | runtime/src/main/java/com/graphaware/runtime/bootstrap/RuntimeKernelExtension.java:89-92 | the extension keeps the configuration it is given and has attempted nothing |
| KernelExtension.RuntimeKernelExtension.TryBootstrap | runtime/src/main/java/com/graphaware/runtime/bootstrap/RuntimeKernelExtension.java:154-159 | the outcome of one try block: not a bootstrapper, a missing configuration value, a failed bootstrap, or the module, which is then registered and nothing else is |
| KernelExtension.RuntimeKernelExtension.RegisterInOrder | runtime/src/main/java/com/graphaware/runtime/bootstrap/RuntimeKernelExtension.java:143-160 | the loop attempts every entry in order and registers exactly the modules that bootstrap, in that order |
| KernelExtension.RuntimeKernelExtension.RegisterModules | runtime/src/main/java/com/graphaware/runtime/bootstrap/RuntimeKernelExtension.java:140-161 | registration runs iff no order overflows; then every sorted entry is attempted and the successful modules are registered in order; otherwise nothing is attempted |
| KernelExtension.RuntimeKernelExtension.Start | runtime/src/main/java/com/graphaware/runtime/bootstrap/RuntimeKernelExtension.java:108-118 | a disabled extension does nothing; an enabled one creates a fresh runtime holding exactly the modules that bootstrap, or none when an order overflows |
| Scenario.ScenarioDiscovery | runtime/src/main/java/com/graphaware/runtime/bootstrap/RuntimeKernelExtension.java:163-180 | a global key, a declaration and a setting of module a and a declaration of module b yield the entries of a and b, in key order |
| Scenario.ScenarioConfigOfA | runtime/src/main/java/com/graphaware/runtime/bootstrap/RuntimeKernelExtension.java:182-193 | module a gets the global key, its declaration under its order digits and its setting under the bare name |
| Scenario.ScenarioConfigOfB | runtime/src/main/java/com/graphaware/runtime/bootstrap/RuntimeKernelExtension.java:182-193 | module b gets the global key, module a's setting under its full name and its own declaration under its order digits |

## Left out

- The starter thread of `start` (waiting up to five minutes for the database, then starting the
  runtime) runs on its own thread after registration. It is not modelled; the readiness wait is
  concurrency and a clock.
- `createRuntime` and the runtime's internals are foreign code. `Runtime.RegisterModule` only
  appends; the real runtime's checks, such as rejecting a duplicate module id, are not part of
  this model.
- Errors escaping the try block: its handler catches `Exception` only. A `java.lang.Error` thrown
  by `Class.forName(...).newInstance()` or by `bootstrapModule` (such as `NoClassDefFoundError`
  or `ExceptionInInitializerError`) escapes `start`, skips the remaining entries and the starter
  thread. `Classpath` expresses only caught failures, so the model does not capture that abort.
- Reflection (`Class.forName(...).newInstance()`, the cast, `bootstrapModule`) is foreign code.
  It becomes the two functions of `Classpath`: whether a class name yields a bootstrapper, and
  the module it builds (or a failure) for an id and a configuration.
- Parsing of the `com.graphaware.runtime.enabled` setting by Neo4j's `Config` is foreign code;
  the setting is given as a boolean.
- Log messages are not modelled. The clash warning is kept as a flag in the ghost attempt log.
- `init` and `isOnEnterprise` (a class lookup) are not modelled; `stop` and `shutdown` do nothing.
- `Collections.sort` is library code. It is modelled by a stable insertion sort on values, the
  guarantee its documentation gives.
- The order of `keySet()` iteration comes from Neo4j's configuration map. It is given as the
  order of the configuration sequence.
- Non-ASCII characters: the pattern's classes `[a-zA-Z0-9]` and `[0-9]` are ASCII-only, and so
  is the model. Strings are sequences of characters, with no encoding.
