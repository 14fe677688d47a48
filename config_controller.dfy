/**
 * The `config` key/value table (src/controllers/config_controller.py),
 * whose key is its primary key: a map from key to value. At start-up the
 * defaults are written for the keys that are still missing; an existing
 * value is never overwritten.
 */
module ConfigController {
  import opened Wrappers
  import opened Store

  // The texts the operations below return.
  const MsgConfigUpdated: string := "Configuración actualizada correctamente."
  const MsgConfigError: string := "Error al actualizar la configuración: "

  /**
   * The table after the defaults, taken in order, have been written for
   * every key still missing at its turn.
   */
  function WithDefaults(config: map<string, string>, defaults: seq<(string, string)>): map<string, string>
    decreases |defaults|
  {
    if defaults == [] then config
    else
      var (key, value) := defaults[0];
      WithDefaults(if key in config then config else config[key := value], defaults[1..])
  }

  /**
   * `initialize_default_configs`: for each default, count the rows with its
   * key and insert it only when there is none.
   */
  method InitializeDefaultConfigs(db: Database, defaults: seq<(string, string)>)
    requires db.Valid()
    modifies db`config
    ensures db.Valid()
    ensures db.config == WithDefaults(old(db.config), defaults)
  {
    var i := 0;
    while i < |defaults|
      invariant 0 <= i <= |defaults|
      invariant WithDefaults(db.config, defaults[i..]) == WithDefaults(old(db.config), defaults)
    {
      var (key, value) := defaults[i];
      assert defaults[i..][0] == (key, value) && defaults[i..][1..] == defaults[i + 1..];
      var count := if key in db.config then 1 else 0;
      if count == 0 {
        db.config := db.config[key := value];
      }
      i := i + 1;
    }
  }

  /** Writing the defaults keeps every value already stored. */
  lemma {:induction false} DefaultsKeepValues(config: map<string, string>, defaults: seq<(string, string)>)
    ensures forall k :: k in config ==> k in WithDefaults(config, defaults) && WithDefaults(config, defaults)[k] == config[k]
    decreases |defaults|
  {
    if defaults != [] {
      var (key, value) := defaults[0];
      DefaultsKeepValues(if key in config then config else config[key := value], defaults[1..]);
    }
  }

  /**
   * Afterwards every default key is present, and every key present was
   * either there before or is a default key.
   */
  lemma {:induction false} DefaultsAddOnlyDefaultKeys(config: map<string, string>, defaults: seq<(string, string)>)
    ensures forall i :: 0 <= i < |defaults| ==> defaults[i].0 in WithDefaults(config, defaults)
    ensures forall k :: k in WithDefaults(config, defaults) ==>
              k in config || exists i :: 0 <= i < |defaults| && defaults[i].0 == k
    decreases |defaults|
  {
    if defaults != [] {
      var (key, value) := defaults[0];
      var next := if key in config then config else config[key := value];
      DefaultsAddOnlyDefaultKeys(next, defaults[1..]);
      DefaultsKeepValues(next, defaults[1..]);
      forall k | k in WithDefaults(config, defaults)
        ensures k in config || exists i :: 0 <= i < |defaults| && defaults[i].0 == k
      {
        if k !in next {
          var i :| 0 <= i < |defaults[1..]| && defaults[1..][i].0 == k;
          assert defaults[i + 1].0 == k;
        }
      }
      forall i | 0 <= i < |defaults| ensures defaults[i].0 in WithDefaults(config, defaults) {
        if i > 0 {
          assert defaults[i] == defaults[1..][i - 1];
        }
      }
    }
  }

  /** A key absent before takes the value of its first occurrence among the defaults. */
  lemma {:induction false} DefaultsTakeFirstValue(config: map<string, string>, defaults: seq<(string, string)>, j: int)
    requires 0 <= j < |defaults| && defaults[j].0 !in config
    requires forall i :: 0 <= i < j ==> defaults[i].0 != defaults[j].0
    ensures defaults[j].0 in WithDefaults(config, defaults)
    ensures WithDefaults(config, defaults)[defaults[j].0] == defaults[j].1
    decreases |defaults|
  {
    DefaultsAddOnlyDefaultKeys(config, defaults);
    var (key, value) := defaults[0];
    var next := if key in config then config else config[key := value];
    if j == 0 {
      DefaultsKeepValues(next, defaults[1..]);
    } else {
      assert defaults[1..][j - 1] == defaults[j];
      DefaultsTakeFirstValue(next, defaults[1..], j - 1);
    }
  }

  /** Running the initialisation again, as every start of the application does, changes nothing. */
  lemma DefaultsIdempotent(config: map<string, string>, defaults: seq<(string, string)>)
    ensures WithDefaults(WithDefaults(config, defaults), defaults) == WithDefaults(config, defaults)
  {
    var once := WithDefaults(config, defaults);
    DefaultsAddOnlyDefaultKeys(config, defaults);
    DefaultsPresentIsFixed(once, defaults);
  }

  /** When every default key is already present, writing the defaults changes nothing. */
  lemma {:induction false} DefaultsPresentIsFixed(config: map<string, string>, defaults: seq<(string, string)>)
    requires forall i :: 0 <= i < |defaults| ==> defaults[i].0 in config
    ensures WithDefaults(config, defaults) == config
    decreases |defaults|
  {
    if defaults != [] {
      assert defaults[0].0 in config;
      forall i | 0 <= i < |defaults[1..]| ensures defaults[1..][i].0 in config {
        assert defaults[1..][i] == defaults[i + 1];
      }
      DefaultsPresentIsFixed(config, defaults[1..]);
    }
  }

  /** `get_config`: the stored value, or `None` for an absent key. */
  function GetConfig(config: map<string, string>, key: string): (r: Option<string>)
    ensures r.None? <==> key !in config
    ensures r.Some? ==> r.value == config[key]
  {
    if key in config then Some(config[key]) else None
  }

  /** `get_all_configs`: every stored key with its value. */
  function GetAllConfigs(config: map<string, string>): (r: map<string, string>)
    ensures forall k :: GetConfig(r, k) == GetConfig(config, k)
  {
    config
  }

  /**
   * `update_config`: `UPDATE config SET value = ? WHERE key = ?`, then
   * commit. An absent key matches no row and is still reported as updated.
   * `failure` is the text of the storage error, if the statement raises one.
   */
  method UpdateConfig(db: Database, key: string, value: string, failure: Option<string>)
    returns (ok: bool, msg: string)
    requires db.Valid()
    modifies db`config
    ensures db.Valid()
    ensures ok <==> failure.None?
    ensures !ok ==> msg == MsgConfigError + failure.value && db.config == old(db.config)
    ensures ok ==> msg == MsgConfigUpdated
    ensures ok && key in old(db.config) ==> GetConfig(db.config, key) == Some(value)
    ensures ok && key !in old(db.config) ==> db.config == old(db.config)
    ensures forall k :: k != key ==> GetConfig(db.config, k) == GetConfig(old(db.config), k)
    ensures db.config.Keys == old(db.config).Keys
  {
    if failure.Some? {
      return false, MsgConfigError + failure.value;
    }
    if key in db.config {
      db.config := db.config[key := value];
    }
    return true, MsgConfigUpdated;
  }
}
