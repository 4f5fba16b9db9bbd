// The identity handshake: when a different user is logged in than the one the session belongs
// to, every session key outside a fixed whitelist is deleted before the new user is recorded.

module Identity {
  /** The keys the scrub keeps: the authenticator object and its login state. */
  const Whitelist: set<string> := {"authenticator", "authentication_status", "logout", "username", "name"}

  /** The key naming the user the session belongs to. */
  const ActiveUser: string := "active_user"

  /** The store with only its whitelisted keys left. */
  function Scrubbed<V>(entries: map<string, V>): map<string, V> {
    map k | k in entries && k in Whitelist :: entries[k]
  }

  /** The scrub keeps exactly the whitelisted keys present, with their values, and drops the active user. */
  lemma ScrubbedSpec<V>(entries: map<string, V>)
    ensures Scrubbed(entries).Keys == entries.Keys * Whitelist
    ensures forall k :: k in Scrubbed(entries) ==> Scrubbed(entries)[k] == entries[k]
    ensures ActiveUser !in Scrubbed(entries)
  {
  }

  /**
   * The handshake on the store's entries: the store afterwards, and whether the script reruns.
   * A first login only records the user; a different user scrubs the store, records the user and
   * reruns; the same user changes nothing.
   */
  function HandshakeOf<V(==)>(entries: map<string, V>, username: V): (map<string, V>, bool) {
    if ActiveUser !in entries then (entries[ActiveUser := username], false)
    else if entries[ActiveUser] != username then (Scrubbed(entries)[ActiveUser := username], true)
    else (entries, false)
  }

  /** Afterwards the session belongs to the given user. */
  lemma HandshakeRecordsUser<V>(entries: map<string, V>, username: V)
    ensures ActiveUser in HandshakeOf(entries, username).0
    ensures HandshakeOf(entries, username).0[ActiveUser] == username
  {
  }

  /**
   * A user switch leaves only the whitelisted keys, with their values, and the active user, and
   * reruns the script.
   */
  lemma HandshakeSwitch<V>(entries: map<string, V>, username: V)
    requires ActiveUser in entries && entries[ActiveUser] != username
    ensures var r := HandshakeOf(entries, username);
      r.1 && r.0.Keys == entries.Keys * Whitelist + {ActiveUser}
      && forall k :: k in entries && k in Whitelist ==> r.0[k] == entries[k]
  {
    ScrubbedSpec(entries);
  }

  /** Only a user switch deletes anything: otherwise every key keeps its value and no rerun happens. */
  lemma HandshakeKeeps<V>(entries: map<string, V>, username: V)
    requires ActiveUser !in entries || entries[ActiveUser] == username
    ensures var r := HandshakeOf(entries, username);
      !r.1 && entries.Keys <= r.0.Keys && forall k :: k in entries && k != ActiveUser ==> r.0[k] == entries[k]
  {
  }

  /** The rerun the switch triggers meets the same user and changes nothing more. */
  lemma HandshakeSettles<V>(entries: map<string, V>, username: V)
    ensures var r := HandshakeOf(entries, username).0;
      HandshakeOf(r, username) == (r, false)
  {
    HandshakeRecordsUser(entries, username);
  }

  /** st.session_state, as a store of values under string keys. */
  class SessionStore<V(==)> {
    var entries: map<string, V>

    constructor (entries: map<string, V>)
      ensures this.entries == entries
    {
      this.entries := entries;
    }

    /** The identity handshake for the logged-in user; true when the script reruns. */
    method Handshake(username: V) returns (rerun: bool)
      modifies this
      ensures (entries, rerun) == HandshakeOf(old(entries), username)
    {
      if ActiveUser !in entries {
        entries := entries[ActiveUser := username];
        return false;
      }
      if entries[ActiveUser] != username {
        var keys := entries.Keys;
        while keys != {}
          invariant keys <= old(entries).Keys
          invariant entries == map k | k in old(entries) && (k in Whitelist || k in keys) :: old(entries)[k]
          decreases keys
        {
          var key :| key in keys;
          if key !in Whitelist {
            entries := entries - {key};
          }
          keys := keys - {key};
        }
        assert entries == Scrubbed(old(entries));
        entries := entries[ActiveUser := username];
        return true;
      }
      return false;
    }
  }
}
