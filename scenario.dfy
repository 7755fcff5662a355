/**
 * The configuration of the class comment of the extension, generalised: a global key, a
 * declaration and a setting of module a, and a declaration of module b. What discovery and
 * findModuleConfig make of it.
 */
module Scenario {
  import opened Wrappers
  import opened Configuration
  import opened ModuleKey
  import opened Bootstrappers
  import opened ModuleConfig

  /** [global, com.graphaware.module.<a>.<da>, com.graphaware.module.<a>.<name>, com.graphaware.module.<b>.<db>] */
  function TwoModules(global: string, a: string, da: string, name: string, b: string, db: string,
                      globalValue: string, classA: string, settingValue: string, classB: string): RawConfig
  {
    [ (global, Some(globalValue)),
      (DeclText(a, da), Some(classA)),
      (ModulePrefix(a) + name, Some(settingValue)),
      (DeclText(b, db), Some(classB)) ]
  }

  /** The hypotheses shared by the lemmas below. */
  ghost predicate WellFormedScenario(global: string, a: string, da: string, name: string, b: string, db: string) {
    && |a| > 0 && AllAlnum(a) && |b| > 0 && AllAlnum(b) && a != b
    && |da| > 0 && AllDigits(da) && |db| > 0 && AllDigits(db)
    && !IsDeclaration(global)
    && !Occurs(global, ModulePrefix(a)) && !Occurs(global, ModulePrefix(b))
    && !IsDeclaration(ModulePrefix(a) + name)
    && !Occurs(name, ModulePrefix(a))
    && !Occurs(ModulePrefix(a) + name, ModulePrefix(b))
  }

  /** Discovery yields the two declarations, in key order, with their class names. */
  lemma ScenarioDiscovery(global: string, a: string, da: string, name: string, b: string, db: string,
                          globalValue: string, classA: string, settingValue: string, classB: string)
    requires WellFormedScenario(global, a, da, name, b, db)
    requires DecimalValue(da) <= MaxInt && DecimalValue(db) <= MaxInt
    ensures Discover(TwoModules(global, a, da, name, b, db, globalValue, classA, settingValue, classB))
      == Some([Entry(DecimalValue(da), a, classA), Entry(DecimalValue(db), b, classB)])
  {
    var cfg := TwoModules(global, a, da, name, b, db, globalValue, classA, settingValue, classB);
    assert DeclText(a, da) + "" == DeclText(a, da);
    assert DeclText(b, db) + "" == DeclText(b, db);
    DeclarationWithTrailingText(a, da, "");
    DeclarationWithTrailingText(b, db, "");
    var c1, c2, c3 := cfg[..1], cfg[..2], cfg[..3];
    assert c1[..0] == [] && c2[..1] == c1 && c3[..2] == c2 && cfg[..3] == c3;
    assert c2[1] == cfg[1] && cfg[3] == (DeclText(b, db), Some(classB));
    var ea := EntryOf(DeclText(a, da), Some(classA));
    var eb := EntryOf(DeclText(b, db), Some(classB));
    assert ea == Entry(DecimalValue(da), a, classA) && eb == Entry(DecimalValue(db), b, classB);
    assert Discover(c1) == Some([]);
    assert c2[|c2| - 1] == (DeclText(a, da), Some(classA)) && c2[..|c2| - 1] == c1;
    assert IsDeclaration(DeclText(a, da)) && !OrderOverflows(DeclText(a, da));
    assert Discover(c2) == Some(Discover(c1).value + [ea]);
    assert Discover(c1).value + [ea] == [ea];
    assert Discover(c2) == Some([ea]);
    assert Discover(c3) == Some([ea]);
    assert cfg[..|cfg| - 1] == c3;
    assert IsDeclaration(DeclText(b, db)) && !OrderOverflows(DeclText(b, db));
    assert Discover(cfg) == Some(Discover(c3).value + [eb]);
    assert Discover(c3).value + [eb] == [ea, eb];
  }

  /**
   * Module a is given the global key unchanged, its own declaration key under its order digits,
   * and its setting under the bare name: more than its own settings.
   */
  lemma ScenarioConfigOfA(global: string, a: string, da: string, name: string, b: string, db: string,
                          globalValue: string, classA: string, settingValue: string, classB: string)
    requires WellFormedScenario(global, a, da, name, b, db)
    ensures ScopedConfig(TwoModules(global, a, da, name, b, db, globalValue, classA, settingValue, classB), a)
      == Some(map[global := globalValue, da := classA, name := settingValue])
  {
    var cfg := TwoModules(global, a, da, name, b, db, globalValue, classA, settingValue, classB);
    UndeclaredKeyShared(global, a);
    OwnDeclarationStoredUnderOrder(a, da);
    OwnSettingStripped(a, name);
    OtherDeclarationExcluded(a, b, db);
    var c1, c2, c3 := cfg[..1], cfg[..2], cfg[..3];
    assert c1[..0] == [] && c2[..1] == c1 && c3[..2] == c2 && cfg[..3] == c3;
    assert c1[0] == cfg[0] && c2[1] == cfg[1] && c3[2] == cfg[2];
    assert ScopedConfig(c1, a) == Some(map[global := globalValue]);
    assert ScopedConfig(c2, a) == Some(map[global := globalValue, da := classA]);
    assert ScopedConfig(c3, a) == Some(map[global := globalValue, da := classA, name := settingValue]);
  }

  /**
   * Module b is given the global key, module a's setting under its full name, and its own
   * declaration key under its order digits; only module a's declaration key is left out.
   */
  lemma ScenarioConfigOfB(global: string, a: string, da: string, name: string, b: string, db: string,
                          globalValue: string, classA: string, settingValue: string, classB: string)
    requires WellFormedScenario(global, a, da, name, b, db)
    ensures ScopedConfig(TwoModules(global, a, da, name, b, db, globalValue, classA, settingValue, classB), b)
      == Some(map[global := globalValue, ModulePrefix(a) + name := settingValue, db := classB])
  {
    var cfg := TwoModules(global, a, da, name, b, db, globalValue, classA, settingValue, classB);
    UndeclaredKeyShared(global, b);
    OtherDeclarationExcluded(b, a, da);
    UndeclaredKeyShared(ModulePrefix(a) + name, b);
    OwnDeclarationStoredUnderOrder(b, db);
    var c1, c2, c3 := cfg[..1], cfg[..2], cfg[..3];
    assert c1[..0] == [] && c2[..1] == c1 && c3[..2] == c2 && cfg[..3] == c3;
    assert c1[0] == cfg[0] && c2[1] == cfg[1] && c3[2] == cfg[2];
    assert ScopedConfig(c1, b) == Some(map[global := globalValue]);
    assert ScopedConfig(c2, b) == Some(map[global := globalValue]);
    assert ScopedConfig(c3, b) == Some(map[global := globalValue, ModulePrefix(a) + name := settingValue]);
  }
}
