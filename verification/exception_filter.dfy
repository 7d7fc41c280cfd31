/**
  `CheckContinueThrow`: the decision, taken whenever the retried callable
  throws, between rethrowing the exception (which ends the run) and
  swallowing it (which counts the attempt as failed).

  Exception types are an abstract kind `K`. The source compares the exact
  runtime type (`GetType()`), so a kind here is one concrete exception type;
  a subclass of a listed type is a different kind. A list that is `None`
  is a null `HashSet`, which the source treats as "no list"; `Some({})` is
  a present but empty list, which it treats differently.
*/
module ExceptionFilter {
  import opened Wrappers

  /** True exactly when `CheckContinueThrow` rethrows an exception of `kind`. */
  predicate Rethrows<K(==)>(ignoreExceptions: bool, whitelist: Option<set<K>>, blacklist: Option<set<K>>, kind: K)
  {
    && !ignoreExceptions
    && (whitelist.None? || kind !in whitelist.value)
    && (blacklist.None? || kind in blacklist.value)
  }

  /** The same decision laid out as a table over which lists are present,
      one row per combination. It is a case split of `Rethrows`, kept as a
      readable summary; the lemmas after it state each row on its own. */
  function DecisionTable<K(==)>(ignoreExceptions: bool, whitelist: Option<set<K>>, blacklist: Option<set<K>>, kind: K): bool
  {
    if ignoreExceptions then false
    else
      match (whitelist, blacklist)
      case (None, None) => true
      case (Some(w), None) => kind !in w
      case (None, Some(b)) => kind in b
      case (Some(w), Some(b)) => kind !in w && kind in b
  }

  /** The filter agrees with its decision table on every input. */
  lemma RethrowsFollowsTable<K>(ignoreExceptions: bool, whitelist: Option<set<K>>, blacklist: Option<set<K>>, kind: K)
    ensures Rethrows(ignoreExceptions, whitelist, blacklist, kind)
      == DecisionTable(ignoreExceptions, whitelist, blacklist, kind)
  {
  }

  /** With `ignoreExceptions` set, nothing is rethrown, whatever the lists. */
  lemma IgnoreNeverRethrows<K>(whitelist: Option<set<K>>, blacklist: Option<set<K>>, kind: K)
    ensures !Rethrows(true, whitelist, blacklist, kind)
  {
  }

  /** Without `ignoreExceptions` and without either list, everything is rethrown. */
  lemma NoListsAlwaysRethrows<K>(kind: K)
    ensures Rethrows(false, None, None, kind)
  {
  }

  /** A kind in a present whitelist is never rethrown, whatever the blacklist. */
  lemma WhitelistedNeverRethrown<K>(ignoreExceptions: bool, whitelist: set<K>, blacklist: Option<set<K>>, kind: K)
    requires kind in whitelist
    ensures !Rethrows(ignoreExceptions, Some(whitelist), blacklist, kind)
  {
  }

  /** With only a blacklist, exactly the blacklisted kinds are rethrown; every
      other kind is swallowed and retried. */
  lemma BlacklistOnlyRethrowsListed<K>(blacklist: set<K>, kind: K)
    ensures Rethrows(false, None, Some(blacklist), kind) <==> kind in blacklist
  {
  }

  /** With both lists, a kind in neither list is swallowed: the blacklist
      can only narrow what the whitelist leaves rethrown. */
  lemma BothListsRethrowOnlyBlacklistedOutsideWhitelist<K>(whitelist: set<K>, blacklist: set<K>, kind: K)
    ensures Rethrows(false, Some(whitelist), Some(blacklist), kind)
      <==> kind !in whitelist && kind in blacklist
  {
  }

  /** A present but empty blacklist swallows everything, unlike an absent one. */
  lemma EmptyBlacklistSwallowsAll<K>(whitelist: Option<set<K>>, kind: K)
    ensures !Rethrows(false, whitelist, Some({}), kind)
    ensures Rethrows(false, None, None, kind)
  {
  }
}
