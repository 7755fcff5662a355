/**
 * findModuleConfig: the settings a module is given. A key is taken when it starts with
 * com.graphaware.module.<id>. or is not a declaration key at all; it is stored under the key with
 * every occurrence of that prefix removed (String.replace), and later keys overwrite earlier ones
 * that end up under the same name.
 */
module ModuleConfig {
  import opened Wrappers
  import opened Configuration
  import opened ModuleKey

  /** MODULE_CONFIG_KEY + "." + moduleId + "." */
  function ModulePrefix(id: string): string {
    DeclPrefix + id + "."
  }

  predicate StartsWith(s: string, p: string) {
    |p| <= |s| && s[..|p|] == p
  }

  predicate OccursAt(s: string, p: string, i: nat) {
    i + |p| <= |s| && s[i..i + |p|] == p
  }

  /** Whether `p` occurs anywhere in `s`. */
  ghost predicate Occurs(s: string, p: string) {
    exists i: nat :: OccursAt(s, p, i)
  }

  /** s.replace(p, ""): scanning left to right, every occurrence of `p` that does not overlap an earlier one is cut out. */
  function RemoveAll(s: string, p: string): (r: string)
    requires |p| > 0
    ensures |r| <= |s|
    decreases |s|
  {
    if |s| < |p| then s
    else if s[..|p|] == p then RemoveAll(s[|p|..], p)
    else [s[0]] + RemoveAll(s[1..], p)
  }

  /** A string in which `p` does not occur is left as it is. */
  lemma {:induction false} RemoveAllWithoutOccurrence(s: string, p: string)
    requires |p| > 0
    requires !Occurs(s, p)
    ensures RemoveAll(s, p) == s
    decreases |s|
  {
    if |s| >= |p| {
      assert !OccursAt(s, p, 0);
      forall i: nat
        ensures !OccursAt(s[1..], p, i)
      {
        if i + |p| <= |s| - 1 {
          assert s[1..][i..i + |p|] == s[i + 1..i + 1 + |p|];
          assert !OccursAt(s, p, i + 1);
        }
      }
      RemoveAllWithoutOccurrence(s[1..], p);
    }
  }

  /** Removing a prefix that recurs further on removes the later occurrences as well. */
  lemma RemoveAllEveryOccurrence(p: string, rest: string)
    requires |p| > 0
    ensures RemoveAll(p + p + rest, p) == RemoveAll(rest, p)
  {
    var s := p + p + rest;
    assert s[..|p|] == p;
    assert s[|p|..] == p + rest;
    assert (p + rest)[..|p|] == p;
    assert (p + rest)[|p|..] == rest;
  }

  /** Where `p` does not start at the front, the first character is kept. */
  lemma RemoveAllKeepsHead(s: string, p: string)
    requires |p| > 0 && |s| > 0
    requires !OccursAt(s, p, 0)
    ensures RemoveAll(s, p) == [s[0]] + RemoveAll(s[1..], p)
  {
    if |s| >= |p| {
      assert s[0..|p|] == s[..|p|];
    }
  }

  /** An occurrence in the tail is an occurrence in the whole string, one position further on. */
  lemma OccursInTail(s: string, p: string, j: nat)
    requires |s| > 0 && OccursAt(s[1..], p, j)
    ensures OccursAt(s, p, j + 1)
  {
    assert s[1..][j..j + |p|] == s[j + 1..j + 1 + |p|];
  }

  /** No occurrence before `i` in the whole string leaves none before `i - 1` in its tail. */
  lemma NoOccurrenceInTail(s: string, p: string, i: nat)
    requires 0 < i <= |s|
    requires forall j: nat :: j < i ==> !OccursAt(s, p, j)
    ensures forall j: nat :: j < i - 1 ==> !OccursAt(s[1..], p, j)
  {
    forall j: nat | j < i - 1 && OccursAt(s[1..], p, j)
      ensures false
    {
      OccursInTail(s, p, j);
    }
  }

  /** Text before the first occurrence of `p` is kept as it is; the removal goes on after it. */
  lemma {:induction false} RemoveAllKeepsText(s: string, p: string, i: nat)
    requires |p| > 0 && i <= |s|
    requires forall j: nat :: j < i ==> !OccursAt(s, p, j)
    ensures RemoveAll(s, p) == s[..i] + RemoveAll(s[i..], p)
    decreases i
  {
    if i > 0 {
      assert !OccursAt(s, p, 0);
      RemoveAllKeepsHead(s, p);
      var t := s[1..];
      NoOccurrenceInTail(s, p, i);
      RemoveAllKeepsText(t, p, i - 1);
      var rest := RemoveAll(s[i..], p);
      assert t[i - 1..] == s[i..];
      calc {
        RemoveAll(s, p);
        [s[0]] + RemoveAll(t, p);
        [s[0]] + (t[..i - 1] + rest);
        ([s[0]] + t[..i - 1]) + rest;
        { assert s[..i] == [s[0]] + t[..i - 1]; }
        s[..i] + rest;
      }
    } else {
      assert s[..0] == [] && s[0..] == s;
    }
  }

  /** The first occurrence of `p` is cut out, wherever it is, and the removal goes on after it. */
  lemma RemoveAllFirstOccurrence(s: string, p: string, i: nat)
    requires |p| > 0
    requires OccursAt(s, p, i)
    requires forall j: nat :: j < i ==> !OccursAt(s, p, j)
    ensures RemoveAll(s, p) == s[..i] + RemoveAll(s[i + |p|..], p)
  {
    RemoveAllKeepsText(s, p, i);
    var t := s[i..];
    assert t[..|p|] == p;
    assert t[|p|..] == s[i + |p|..];
  }

  /** Whether findModuleConfig takes `key` into the configuration of module `id`. */
  predicate Included(key: string, id: string) {
    StartsWith(key, ModulePrefix(id)) || !IsDeclaration(key)
  }

  /** The name under which an included key is stored. */
  function LocalKey(key: string, id: string): string {
    RemoveAll(key, ModulePrefix(id))
  }

  /** The key com.graphaware.module.<id>.<digits> is taken for <id>, and stored under <digits> (e.g. "1"). */
  lemma OwnDeclarationStoredUnderOrder(id: string, digits: string)
    requires |id| > 0 && AllAlnum(id)
    requires |digits| > 0 && AllDigits(digits)
    ensures Included(DeclText(id, digits), id)
    ensures LocalKey(DeclText(id, digits), id) == digits
  {
    var key := DeclText(id, digits);
    var p := ModulePrefix(id);
    assert key == p + digits;
    assert key[..|p|] == p && key[|p|..] == digits;
    assert p[0] == 'c';
    forall i: nat
      ensures !OccursAt(digits, p, i)
    {
      if i + |p| <= |digits| {
        assert digits[i..i + |p|][0] == digits[i];
      }
    }
    RemoveAllWithoutOccurrence(digits, p);
  }

  /** Another module's declaration key does not start with this module's prefix. */
  lemma OtherPrefixMismatch(id: string, other: string, digits: string)
    requires AllAlnum(id) && AllAlnum(other)
    requires id != other
    ensures !StartsWith(DeclText(other, digits), ModulePrefix(id))
  {
    var key := DeclText(other, digits);
    var p := ModulePrefix(id);
    var d := |DeclPrefix|;
    ConcatParts(DeclPrefix, other, digits);
    if |p| <= |key| {
      if |id| < |other| {
        assert key[d + |id|] == other[|id|];
        assert key[..|p|][d + |id|] != p[d + |id|];
      } else if |id| > |other| {
        assert key[d + |other|] == '.';
        assert key[..|p|][d + |other|] != p[d + |other|];
      } else {
        assert key[d..d + |id|] == other;
        assert key[..|p|][d..d + |id|] != p[d..d + |id|];
      }
    }
  }

  /**
   * The declaration key of another module is left out. In general a key is left out exactly
   * when it declares a module and does not start with this module's prefix; this is the usual
   * instance of that.
   */
  lemma OtherDeclarationExcluded(id: string, other: string, digits: string)
    requires |id| > 0 && AllAlnum(id)
    requires |other| > 0 && AllAlnum(other)
    requires |digits| > 0 && AllDigits(digits)
    requires id != other
    ensures !Included(DeclText(other, digits), id)
  {
    assert DeclText(other, digits) + "" == DeclText(other, digits);
    DeclarationWithTrailingText(other, digits, "");
    OtherPrefixMismatch(id, other, digits);
  }

  /** A module's own setting com.graphaware.module.<id>.<name> is stored under <name>. */
  lemma OwnSettingStripped(id: string, name: string)
    requires !Occurs(name, ModulePrefix(id))
    ensures Included(ModulePrefix(id) + name, id)
    ensures LocalKey(ModulePrefix(id) + name, id) == name
  {
    var p := ModulePrefix(id);
    var key := p + name;
    assert key[..|p|] == p && key[|p|..] == name;
    RemoveAllWithoutOccurrence(name, p);
  }

  /**
   * A key that declares no module is taken by every module; unless the module's prefix occurs
   * in it, it is stored under its own name.
   */
  lemma UndeclaredKeyShared(key: string, id: string)
    requires !IsDeclaration(key)
    requires !Occurs(key, ModulePrefix(id))
    ensures Included(key, id)
    ensures LocalKey(key, id) == key
  {
    RemoveAllWithoutOccurrence(key, ModulePrefix(id));
  }

  /**
   * A key that declares no module but holds the module's prefix after other text is taken, and
   * the prefix is cut out of the middle: my.com.graphaware.module.A.x is stored for A as my.x.
   */
  lemma EmbeddedPrefixCut(head: string, id: string, tail: string)
    requires !IsDeclaration(head + ModulePrefix(id) + tail)
    requires forall j: nat :: j < |head| ==> !OccursAt(head + ModulePrefix(id) + tail, ModulePrefix(id), j)
    ensures Included(head + ModulePrefix(id) + tail, id)
    ensures LocalKey(head + ModulePrefix(id) + tail, id) == head + RemoveAll(tail, ModulePrefix(id))
  {
    var p := ModulePrefix(id);
    var key := head + p + tail;
    assert key[|head|..|head| + |p|] == p;
    RemoveAllFirstOccurrence(key, p, |head|);
    assert key[..|head|] == head;
    assert key[|head| + |p|..] == tail;
  }

  /**
   * The map findModuleConfig holds after visiting the keys of `cfg`, in order; None once an
   * included key had no raw value, where Optional.get throws.
   */
  function ScopedConfig(cfg: RawConfig, id: string): (r: Option<map<string, string>>)
    ensures r.Some? ==> forall local :: local in r.value ==>
      exists k :: 0 <= k < |cfg| && Included(cfg[k].0, id) && cfg[k].1 == Some(r.value[local])
    decreases |cfg|
  {
    if cfg == [] then Some(map[])
    else
      var before := ScopedConfig(cfg[..|cfg| - 1], id);
      var (key, value) := cfg[|cfg| - 1];
      if before.None? then None
      else if !Included(key, id) then before
      else if value.None? then None
      else Some(before.value[LocalKey(key, id) := value.value])
  }

  /** The key at position `k` is included and stored under `local`. */
  predicate StoredUnder(cfg: RawConfig, id: string, k: nat, local: string)
    requires k < |cfg|
  {
    Included(cfg[k].0, id) && LocalKey(cfg[k].0, id) == local
  }

  /** The key at position `k` is the last included key of `cfg` that is stored under `local`. */
  ghost predicate LastWriter(cfg: RawConfig, id: string, local: string, k: nat) {
    && k < |cfg|
    && StoredUnder(cfg, id, k, local)
    && forall k' :: k < k' < |cfg| ==> !StoredUnder(cfg, id, k', local)
  }

  /** A last writer stays the last writer when a key stored under another name is appended. */
  lemma LastWriterExtends(cfg: RawConfig, id: string, local: string, k: nat)
    requires |cfg| > 0 && LastWriter(cfg[..|cfg| - 1], id, local, k)
    requires !StoredUnder(cfg, id, |cfg| - 1, local)
    ensures LastWriter(cfg, id, local, k)
  {
    var init := cfg[..|cfg| - 1];
    forall k' | k <= k' < |init|
      ensures StoredUnder(init, id, k', local) == StoredUnder(cfg, id, k', local)
    {
      assert init[k'] == cfg[k'];
    }
  }

  /** Once an included key without value was met, the rest of the keys cannot undo the failure. */
  lemma {:induction false} ScopedConfigAborts(cfg: RawConfig, id: string, n: nat)
    requires n <= |cfg|
    requires ScopedConfig(cfg[..n], id).None?
    ensures ScopedConfig(cfg, id).None?
    decreases |cfg|
  {
    if n < |cfg| {
      var init := cfg[..|cfg| - 1];
      assert init[..n] == cfg[..n];
      ScopedConfigAborts(init, id, n);
    } else {
      assert cfg[..n] == cfg;
    }
  }

  /** Building the configuration fails exactly when some included key has no raw value. */
  lemma {:induction false} ScopedConfigFailsIff(cfg: RawConfig, id: string)
    ensures ScopedConfig(cfg, id).None? <==>
      exists k :: 0 <= k < |cfg| && Included(cfg[k].0, id) && cfg[k].1.None?
    decreases |cfg|
  {
    if cfg != [] {
      var init := cfg[..|cfg| - 1];
      ScopedConfigFailsIff(init, id);
      assert forall k :: 0 <= k < |init| ==> init[k] == cfg[k];
    }
  }

  /** The configuration holds a name exactly when some included key is stored under it. */
  lemma {:induction false} ScopedConfigKeys(cfg: RawConfig, id: string)
    requires ScopedConfig(cfg, id).Some?
    ensures forall local :: local in ScopedConfig(cfg, id).value <==>
      exists k :: 0 <= k < |cfg| && Included(cfg[k].0, id) && LocalKey(cfg[k].0, id) == local
    decreases |cfg|
  {
    if cfg != [] {
      var init := cfg[..|cfg| - 1];
      ScopedConfigKeys(init, id);
      assert forall k :: 0 <= k < |init| ==> init[k] == cfg[k];
    }
  }

  /** The value stored under a name is the raw value of the last included key stored under it. */
  lemma {:induction false} ScopedConfigValues(cfg: RawConfig, id: string)
    requires ScopedConfig(cfg, id).Some?
    ensures forall local :: local in ScopedConfig(cfg, id).value ==>
      exists k :: 0 <= k < |cfg| && LastWriter(cfg, id, local, k) && cfg[k].1 == Some(ScopedConfig(cfg, id).value[local])
    decreases |cfg|
  {
    if cfg != [] {
      var n := |cfg| - 1;
      var init := cfg[..n];
      var before := ScopedConfig(init, id).value;
      var m := ScopedConfig(cfg, id).value;
      ScopedConfigValues(init, id);
      forall local | local in m
        ensures exists k :: 0 <= k < |cfg| && LastWriter(cfg, id, local, k) && cfg[k].1 == Some(m[local])
      {
        if StoredUnder(cfg, id, n, local) {
          assert LastWriter(cfg, id, local, n);
        } else {
          assert local in before && m[local] == before[local];
          var k :| 0 <= k < |init| && LastWriter(init, id, local, k) && init[k].1 == Some(before[local]);
          assert init[k] == cfg[k];
          LastWriterExtends(cfg, id, local, k);
        }
      }
    }
  }

  /**
   * findModuleConfig: visits every key, stores each included key under its stripped name with
   * its raw value. None when an included key has no raw value.
   */
  method FindModuleConfig(cfg: RawConfig, id: string) returns (r: Option<map<string, string>>)
    ensures r == ScopedConfig(cfg, id)
    ensures r.None? <==> exists k :: 0 <= k < |cfg| && Included(cfg[k].0, id) && cfg[k].1.None?
    ensures r.Some? ==> forall local :: local in r.value <==>
      exists k :: 0 <= k < |cfg| && Included(cfg[k].0, id) && LocalKey(cfg[k].0, id) == local
    ensures r.Some? ==> forall local :: local in r.value ==>
      exists k :: 0 <= k < |cfg| && LastWriter(cfg, id, local, k) && cfg[k].1 == Some(r.value[local])
  {
    ScopedConfigFailsIff(cfg, id);
    var prefix := ModulePrefix(id);
    var moduleConfig: map<string, string> := map[];
    var i := 0;
    while i < |cfg|
      invariant 0 <= i <= |cfg|
      invariant ScopedConfig(cfg[..i], id) == Some(moduleConfig)
    {
      var (key, value) := cfg[i];
      assert cfg[..i + 1][..i] == cfg[..i];
      if StartsWith(key, prefix) || FindDecl(key).None? {
        if value.None? {
          ScopedConfigAborts(cfg, id, i + 1);
          return None;
        }
        moduleConfig := moduleConfig[RemoveAll(key, prefix) := value.value];
      }
      i := i + 1;
    }
    assert cfg[..i] == cfg;
    ScopedConfigKeys(cfg, id);
    ScopedConfigValues(cfg, id);
    r := Some(moduleConfig);
  }
}
