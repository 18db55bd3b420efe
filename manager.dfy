/**
 * `ConfigManager`: a table from path to `Config`, filled on demand and never
 * emptied.  Every public operation resolves the path first (loading the file
 * the first time) and forwards to that store; when the path cannot be resolved
 * it gives a fixed answer instead.  What loading finds is a parameter: the
 * file's text, or None when it cannot be opened, and whether creating the
 * missing file works.
 */
module IniManager {
  import opened IniText
  import opened IniNumbers
  import opened IniStore
  import opened IniParse
  import opened IniSerialize
  import opened IniConfig

  /** The store a freshly loaded `Config` holds: the parsed file, or nothing for a newly created one. */
  function Loaded(content: Option<string>): (r: seq<Section>)
    ensures content.Some? ==> Reloadable(r)
  {
    if content.Some? then
      Parse(GetLines(content.value))
    else []
  }

  class ConfigManager {
    /** m_configs: each path with the store loaded from it. */
    var configs: map<string, Config>

    /** Every registered store was loaded from its own, non-empty path. */
    ghost predicate Valid()
      reads this, configs.Values
    {
      forall p :: p in configs ==> p != [] && configs[p].file == p && configs[p].Valid()
    }

    /** Whether `file` resolves: it is registered, or loading it succeeds. */
    predicate Resolves(file: string, content: Option<string>, createOk: bool)
      reads this
    {
      file in configs || content.Some? || createOk
    }

    /** The store `file` resolves to before an operation runs on it. */
    ghost function Prior(file: string, content: Option<string>): seq<Section>
      reads this, configs.Values
    {
      if file in configs then configs[file].sections else Loaded(content)
    }

    /** The text last written for `file` before an operation runs on it: none for a store not yet loaded. */
    ghost function PriorWritten(file: string): Option<string>
      reads this, configs.Values
    {
      if file in configs then configs[file].written else None
    }

    /** The registered store of `file`, the only one an operation on `file` may change. */
    function Target(file: string): set<Config>
      reads this
    {
      if file in configs then {configs[file]} else {}
    }

    constructor ()
      ensures Valid() && configs == map[]
    {
      configs := map[];
    }

    /**
     * GetConfigNoLock: a registered path gives its store without loading
     * again; otherwise a new store reads the file and is registered only if
     * ReadFile succeeds, and null is returned when it fails.
     */
    method GetConfigNoLock(file: string, content: Option<string>, createOk: bool) returns (c: Config?)
      requires Valid() && file != []
      modifies this`configs
      ensures Valid()
      ensures file in old(configs) ==> c == old(configs[file]) && configs == old(configs)
      ensures !old(Resolves(file, content, createOk)) ==> c == null && configs == old(configs)
      ensures file !in old(configs) && old(Resolves(file, content, createOk)) ==>
                c != null && fresh(c) && configs == old(configs)[file := c] && c.written == None
      ensures c != null ==> file in configs && c == configs[file] && c.sections == old(Prior(file, content))
      ensures c != null ==> c.written == old(PriorWritten(file))
    {
      if file in configs {
        return configs[file];
      }
      var cfg := new Config();
      var ok := cfg.ReadFile(file, content, createOk);
      if !ok {
        return null;
      }
      configs := configs[file := cfg];
      return cfg;
    }

    /** GetConfig: the store for `file`, or null when it cannot be loaded. */
    method GetConfig(file: string, content: Option<string>, createOk: bool) returns (c: Config?)
      requires Valid() && file != []
      modifies this`configs
      ensures Valid()
      ensures configs.Keys == old(configs.Keys) + (if old(Resolves(file, content, createOk)) then {file} else {})
      ensures forall p :: p in old(configs) ==> configs[p] == old(configs[p])
      ensures c == null <==> !old(Resolves(file, content, createOk))
      ensures c != null ==> c == configs[file] && c.sections == old(Prior(file, content))
      ensures c != null ==> c.written == old(PriorWritten(file))
    {
      c := GetConfigNoLock(file, content, createOk);
    }

    /** UpdateFile: false when `file` cannot be resolved, otherwise the store's UpdateFile. */
    method UpdateFile(file: string, content: Option<string>, createOk: bool, writeOk: bool) returns (ok: bool)
      requires Valid() && file != []
      modifies this`configs, Target(file)
      ensures Valid()
      ensures configs.Keys == old(configs.Keys) + (if old(Resolves(file, content, createOk)) then {file} else {})
      ensures forall p :: p in old(configs) ==> configs[p] == old(configs[p])
      ensures ok == (old(Resolves(file, content, createOk)) && writeOk)
      ensures old(Resolves(file, content, createOk)) ==> configs[file].sections == old(Prior(file, content))
      ensures old(Resolves(file, content, createOk)) ==>
                configs[file].written == if ok then Some(ConfigText(configs[file].sections)) else old(PriorWritten(file))
    {
      var c := GetConfigNoLock(file, content, createOk);
      if c == null {
        return false;
      }
      ok := c.UpdateFile(writeOk);
    }

    /** SetValue: false when `file` cannot be resolved, otherwise the store's SetValue. */
    method SetValue(file: string, s: string, k: string, v: string, comment: string, replace: bool,
                    content: Option<string>, createOk: bool) returns (ok: bool)
      requires Valid() && file != []
      modifies this`configs, Target(file)
      ensures Valid()
      ensures configs.Keys == old(configs.Keys) + (if old(Resolves(file, content, createOk)) then {file} else {})
      ensures forall p :: p in old(configs) ==> configs[p] == old(configs[p])
      ensures ok == (old(Resolves(file, content, createOk)) && SetValueAccepts(s, k))
      ensures old(Resolves(file, content, createOk)) ==>
                configs[file].sections == IniStore.SetValue(old(Prior(file, content)), s, k, v, comment, replace)
      ensures old(Resolves(file, content, createOk)) ==> configs[file].written == old(PriorWritten(file))
    {
      var c := GetConfigNoLock(file, content, createOk);
      if c == null {
        return false;
      }
      ok := c.SetValue(s, k, v, comment, replace);
    }

    /** The numeric SetValue: as SetValue, with the number's decimal text. */
    method SetNumber(file: string, s: string, k: string, n: int, comment: string, replace: bool,
                     content: Option<string>, createOk: bool) returns (ok: bool)
      requires Valid() && file != []
      modifies this`configs, Target(file)
      ensures Valid()
      ensures configs.Keys == old(configs.Keys) + (if old(Resolves(file, content, createOk)) then {file} else {})
      ensures forall p :: p in old(configs) ==> configs[p] == old(configs[p])
      ensures ok == (old(Resolves(file, content, createOk)) && SetValueAccepts(s, k))
      ensures old(Resolves(file, content, createOk)) ==>
                configs[file].sections == IniStore.SetValue(old(Prior(file, content)), s, k, IntToString(n), comment, replace)
      ensures old(Resolves(file, content, createOk)) ==> configs[file].written == old(PriorWritten(file))
    {
      var c := GetConfigNoLock(file, content, createOk);
      if c == null {
        return false;
      }
      ok := c.SetNumber(s, k, n, comment, replace);
    }

    /** GetValue: the default when `file` cannot be resolved, otherwise the store's GetValue. */
    method GetValue(file: string, default: string, s: string, k: string,
                    content: Option<string>, createOk: bool) returns (r: string)
      requires Valid() && file != []
      modifies this`configs
      ensures Valid()
      ensures configs.Keys == old(configs.Keys) + (if old(Resolves(file, content, createOk)) then {file} else {})
      ensures forall p :: p in old(configs) ==> configs[p] == old(configs[p])
      ensures r == if old(Resolves(file, content, createOk))
                   then IniStore.GetValue(old(Prior(file, content)), default, s, k) else default
      ensures old(Resolves(file, content, createOk)) ==>
                configs[file].sections == old(Prior(file, content)) && configs[file].written == old(PriorWritten(file))
    {
      var c := GetConfigNoLock(file, content, createOk);
      if c == null {
        return default;
      }
      r := c.GetValue(default, s, k);
    }

    /** The integer GetValue: the default when `file` cannot be resolved, otherwise the store's. */
    method GetNumber(file: string, default: int, s: string, k: string,
                     content: Option<string>, createOk: bool) returns (r: int)
      requires Valid() && file != []
      modifies this`configs
      ensures Valid()
      ensures configs.Keys == old(configs.Keys) + (if old(Resolves(file, content, createOk)) then {file} else {})
      ensures forall p :: p in old(configs) ==> configs[p] == old(configs[p])
      ensures r == if old(Resolves(file, content, createOk))
                   then GetValueInt(old(Prior(file, content)), default, s, k) else default
      ensures old(Resolves(file, content, createOk)) ==>
                configs[file].sections == old(Prior(file, content)) && configs[file].written == old(PriorWritten(file))
    {
      var c := GetConfigNoLock(file, content, createOk);
      if c == null {
        return default;
      }
      r := c.GetNumber(default, s, k);
    }

    /** GetSection: empty when `file` cannot be resolved, otherwise the store's GetSection. */
    method GetSection(file: string, s: string, content: Option<string>, createOk: bool) returns (r: seq<KeyValue>)
      requires Valid() && file != []
      modifies this`configs
      ensures Valid()
      ensures configs.Keys == old(configs.Keys) + (if old(Resolves(file, content, createOk)) then {file} else {})
      ensures forall p :: p in old(configs) ==> configs[p] == old(configs[p])
      ensures r == if old(Resolves(file, content, createOk))
                   then IniStore.GetSection(old(Prior(file, content)), s) else []
      ensures old(Resolves(file, content, createOk)) ==>
                configs[file].sections == old(Prior(file, content)) && configs[file].written == old(PriorWritten(file))
    {
      var c := GetConfigNoLock(file, content, createOk);
      if c == null {
        return [];
      }
      r := c.GetSection(s);
    }

    /** DeleteKey: true when `file` cannot be resolved, otherwise the store's DeleteKey. */
    method DeleteKey(file: string, s: string, k: string, updateFile: bool,
                     content: Option<string>, createOk: bool, writeOk: bool) returns (ok: bool)
      requires Valid() && file != []
      modifies this`configs, Target(file)
      ensures Valid()
      ensures configs.Keys == old(configs.Keys) + (if old(Resolves(file, content, createOk)) then {file} else {})
      ensures forall p :: p in old(configs) ==> configs[p] == old(configs[p])
      ensures ok == (!old(Resolves(file, content, createOk)) || !updateFile || writeOk)
      ensures old(Resolves(file, content, createOk)) ==>
                configs[file].sections == RemoveKey(old(Prior(file, content)), s, k)
      ensures old(Resolves(file, content, createOk)) ==>
                configs[file].written == if updateFile && writeOk then Some(ConfigText(configs[file].sections))
                                         else old(PriorWritten(file))
    {
      var c := GetConfigNoLock(file, content, createOk);
      if c == null {
        return true;
      }
      ok := c.DeleteKey(s, k, updateFile, writeOk);
    }

    /** DeleteSection: true when `file` cannot be resolved, otherwise the store's DeleteSection. */
    method DeleteSection(file: string, s: string, updateFile: bool,
                         content: Option<string>, createOk: bool, writeOk: bool) returns (ok: bool)
      requires Valid() && file != []
      modifies this`configs, Target(file)
      ensures Valid()
      ensures configs.Keys == old(configs.Keys) + (if old(Resolves(file, content, createOk)) then {file} else {})
      ensures forall p :: p in old(configs) ==> configs[p] == old(configs[p])
      ensures ok == (!old(Resolves(file, content, createOk)) || !updateFile || writeOk)
      ensures old(Resolves(file, content, createOk)) ==>
                configs[file].sections == RemoveSection(old(Prior(file, content)), s)
      ensures old(Resolves(file, content, createOk)) ==>
                configs[file].written == if updateFile && writeOk then Some(ConfigText(configs[file].sections))
                                         else old(PriorWritten(file))
    {
      var c := GetConfigNoLock(file, content, createOk);
      if c == null {
        return true;
      }
      ok := c.DeleteSection(s, updateFile, writeOk);
    }
  }
}
