/** The raw database configuration the kernel extension reads. */
module Configuration {
  import opened Wrappers

  /**
   * The raw settings, as the extension sees them through getRaw(): one pair per key, in the
   * iteration order of the key set. A value of None stands for a key whose raw value is absent.
   * The keys of the source's map are distinct; nothing here relies on it, and a repeated key
   * is visited like any other key.
   */
  type RawConfig = seq<(string, Option<string>)>
}
