/**
 * The admin key (convex/admin.ts): trust on first use. The first caller of
 * setAdminKey stores a key in the global settings record; from then on the
 * key can no longer be set, and every admin mutation demands it.
 */
module AdminKeys {
  import opened Wrappers
  import opened Schema

  /** `settings?.value?.adminKey`, with a missing record or key read as "" (falsy). */
  function StoredKey(s: Option<Settings>): (k: string)
    ensures k != "" ==> s.Some? && s.value.adminKey == Some(k)
  {
    if s.Some? && s.value.adminKey.Some? then s.value.adminKey.value else ""
  }

  /** isConfigured: a non-empty key is stored. */
  function IsConfigured(s: Option<Settings>): (c: bool)
    ensures c <==> s.Some? && s.value.adminKey.Some? && s.value.adminKey.value != ""
  {
    StoredKey(s) != ""
  }

  /** verifyAdminKey: false when no key is stored, else string equality. */
  function VerifyAdminKey(s: Option<Settings>, key: string): (ok: bool)
    ensures ok <==> s.Some? && s.value.adminKey == Some(key) && key != ""
  {
    var stored := StoredKey(s);
    if stored == "" then false else stored == key
  }

  /**
   * The guard every admin mutation runs first: a key is stored and the
   * supplied (possibly absent) key is not it.
   */
  predicate GuardRefuses(s: Option<Settings>, supplied: Option<string>) {
    var stored := StoredKey(s);
    stored != "" && supplied != Some(stored)
  }

  /** The settings record after a successful setAdminKey(key). */
  function WithAdminKey(s: Option<Settings>, key: string): Option<Settings> {
    if s.Some? then Some(s.value.(adminKey := Some(key)))
    else Some(Settings(DefaultCapacity, Some(key)))
  }

  /** The single settings record, absent until a mutation writes it. */
  class SettingsTable {
    var record: Option<Settings>

    constructor()
      ensures record == None
    {
      record := None;
    }

    /** setAdminKey: refused once a key is set; otherwise patch or insert the key. */
    method SetAdminKey(key: string) returns (r: Outcome<Error>)
      modifies this
      ensures old(IsConfigured(record)) ==> r == Fail(AdminKeyAlreadySet) && record == old(record)
      ensures !old(IsConfigured(record)) ==> r == Pass && record == WithAdminKey(old(record), key)
    {
      if IsConfigured(record) {
        return Fail(AdminKeyAlreadySet);
      }
      record := WithAdminKey(record, key);
      return Pass;
    }
  }

  // ---------------------------------------------------------------------
  // Lemmas

  /** The guard and verifyAdminKey agree: a supplied key passes iff nothing is configured or it verifies. */
  lemma GuardExactly(s: Option<Settings>, supplied: Option<string>)
    ensures !GuardRefuses(s, supplied) <==> !IsConfigured(s) || (supplied.Some? && VerifyAdminKey(s, supplied.value))
  {
  }

  /** An absent key is refused exactly when a key is configured. */
  lemma MissingKeyRefused(s: Option<Settings>)
    ensures GuardRefuses(s, None) <==> IsConfigured(s)
  {
  }

  /**
   * After a successful setAdminKey(key) the key verifies and the system is
   * configured, unless the key was the empty string, which leaves the
   * system unconfigured; the capacity is kept, or 16 on a first insert.
   */
  lemma SetAdminKeyEffect(s: Option<Settings>, key: string)
    requires !IsConfigured(s)
    ensures var t := WithAdminKey(s, key);
            && (VerifyAdminKey(t, key) <==> key != "")
            && (IsConfigured(t) <==> key != "")
            && (forall other :: VerifyAdminKey(t, other) ==> other == key)
            && t.value.maxCapacity == (if s.Some? then s.value.maxCapacity else DefaultCapacity)
  {
  }

  /** Once configured, the key can only be met by the stored key itself. */
  lemma ConfiguredGuard(s: Option<Settings>, supplied: Option<string>)
    requires IsConfigured(s)
    ensures !GuardRefuses(s, supplied) <==> supplied == Some(StoredKey(s))
  {
  }
}
