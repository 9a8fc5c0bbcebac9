/**
 * The SystemConfig table and the upsert of `api_put_configs`
 * (backend/app.py:40-48, 324-346): only the allowed keys are written,
 * and the reply's `changed` dict holds exactly what was written.
 */
module Config {
  import opened Wrappers

  /** `ALLOWED_CONFIG_KEYS`. */
  const AllowedConfigKeys: seq<string> := [
    "GPA_GIOI_THRESHOLD",
    "GPA_KHA_THRESHOLD",
    "GPA_TRUNGBINH_THRESHOLD",
    "TINCHI_NO_CANHCAO_THRESHOLD",
    "EMAIL_DOMAIN",
    "DEFAULT_MAJOR",
    "RETAKE_POLICY_DEFAULT"
  ]

  /** A body entry `(key, value)`; the entries of `values` in the dict's iteration order. */
  type Entry = (string, string)

  predicate Allowed(k: string) {
    k in AllowedConfigKeys
  }

  /**
   * The `changed` dict after the loop has seen `entries`: each allowed key
   * mapped to the value of its last entry.
   */
  function Accepted(entries: seq<Entry>): map<string, string>
    decreases |entries|
  {
    if entries == [] then map[]
    else
      var prev := Accepted(entries[..|entries| - 1]);
      var e := entries[|entries| - 1];
      if Allowed(e.0) then prev[e.0 := e.1] else prev
  }

  /** Reference definition: the value of the last entry for `k`, if any. */
  function LastValue(entries: seq<Entry>, k: string): (r: Option<string>)
    ensures r.None? <==> forall i :: 0 <= i < |entries| ==> entries[i].0 != k
    ensures r.Some? ==> exists i :: 0 <= i < |entries| && entries[i] == (k, r.value)
    decreases |entries|
  {
    if entries == [] then None
    else if entries[|entries| - 1].0 == k then Some(entries[|entries| - 1].1)
    else LastValue(entries[..|entries| - 1], k)
  }

  /**
   * `changed` holds exactly the allowed keys that occur in the body, each
   * with the value of its last occurrence.
   */
  lemma {:induction false} AcceptedIsLastAllowed(entries: seq<Entry>)
    ensures forall k :: k in Accepted(entries) <==> Allowed(k) && LastValue(entries, k).Some?
    ensures forall k :: k in Accepted(entries) ==> Accepted(entries)[k] == LastValue(entries, k).value
    decreases |entries|
  {
    if entries != [] {
      AcceptedIsLastAllowed(entries[..|entries| - 1]);
    }
  }

  /** No key outside `ALLOWED_CONFIG_KEYS` is ever accepted. */
  lemma AcceptedOnlyAllowed(entries: seq<Entry>, k: string)
    requires !Allowed(k)
    ensures k !in Accepted(entries)
  {
    AcceptedIsLastAllowed(entries);
  }

  /** An allowed key whose last entry carries `v` is written with `v`. */
  lemma AcceptedLastWins(entries: seq<Entry>, k: string, v: string)
    requires Allowed(k)
    ensures k in Accepted(entries + [(k, v)]) && Accepted(entries + [(k, v)])[k] == v
  {
    assert (entries + [(k, v)])[..|entries|] == entries;
  }

  /** One loop step: the entries up to `i + 1` are the entries up to `i` and then `entries[i]`. */
  lemma AcceptedStep(entries: seq<Entry>, i: nat)
    requires i < |entries|
    ensures Accepted(entries[..i + 1])
         == if Allowed(entries[i].0) then Accepted(entries[..i])[entries[i].0 := entries[i].1]
            else Accepted(entries[..i])
  {
    assert entries[..i + 1][..i] == entries[..i];
  }

  /** Writing one more row keeps the table equal to the old rows overwritten by `changed`. */
  lemma UpsertStep(base: map<string, string>, stored: map<string, string>, changed: map<string, string>,
                   k: string, v: string)
    requires stored == base + changed
    ensures stored[k := v] == base + changed[k := v]
  {
  }

  /** The rows of SystemConfig, keyed by ConfigKey, valued by ConfigValue. */
  class ConfigStore {
    var values: map<string, string>

    /** Every stored key is an allowed one. */
    ghost predicate Valid()
      reads this
    {
      forall k :: k in values ==> Allowed(k)
    }

    constructor ()
      ensures Valid() && values == map[]
    {
      values := map[];
    }

    /**
     * `api_put_configs`: a missing or empty `values` changes nothing; else
     * every allowed key of the body is inserted or updated, disallowed keys
     * are skipped, and the reply lists what was written.
     */
    method PutConfigs(body: Option<seq<Entry>>) returns (changed: map<string, string>)
      requires Valid()
      modifies this
      ensures Valid()
      ensures changed == Accepted(body.GetOr([]))
      ensures values == old(values) + changed
    {
      var entries := body.GetOr([]);
      changed := map[];
      var i := 0;
      assert entries[..0] == [];
      while i < |entries|
        invariant 0 <= i <= |entries|
        invariant changed == Accepted(entries[..i])
        invariant values == old(values) + changed
        invariant Valid()
      {
        AcceptedStep(entries, i);
        var k := entries[i].0;
        var v := entries[i].1;
        if k in AllowedConfigKeys {
          UpsertStep(old(values), values, changed, k, v);
          values := values[k := v];
          changed := changed[k := v];
        }
        i := i + 1;
      }
      assert entries[..|entries|] == entries;
    }

    /** `api_get_configs`: every allowed key, with its stored value or "". */
    function Values(): (r: map<string, string>)
      reads this
      ensures forall k :: k in r <==> Allowed(k)
      ensures forall k :: k in r && k in values ==> r[k] == values[k]
      ensures forall k :: k in r && k !in values ==> r[k] == ""
    {
      map k | k in AllowedConfigKeys :: if k in values then values[k] else ""
    }
  }

  /** After a PUT whose body's last entry for an allowed key carries `v`, a GET reads `v` for it. */
  method PutThenGet(store: ConfigStore, entries: seq<Entry>, k: string, v: string) returns (read: string)
    requires store.Valid() && Allowed(k)
    modifies store
    ensures store.Valid()
    ensures read == v
  {
    var changed := store.PutConfigs(Some(entries + [(k, v)]));
    AcceptedLastWins(entries, k, v);
    read := store.Values()[k];
  }
}
