/**
 * The two switches apps/RCtools.js consults before resolving a link: the
 * global blacklist of `isEnableResolve`, and the overseas flag of
 * `isOverseasServer`, which is kept in redis under `Yz:rconsole:tools:oversea`.
 */
module Controls {
  import opened Wrappers
  import Constants

  /** `list.find(item => item === name)`: the first element equal to `name`. */
  function Find(list: seq<string>, name: string): (r: Option<string>)
    ensures r.Some? ==> r.value == name && name in list
    ensures r.None? ==> name !in list
  {
    if list == [] then None
    else if list[0] == name then Some(list[0])
    else Find(list[1..], name)
  }

  /** `isEnableResolve(name)`: a missing blacklist (`null`) lets everything
      through; otherwise a name is resolved exactly when it is not listed. */
  function IsEnableResolve(blacklist: Option<seq<string>>, name: string): (enabled: bool)
    ensures blacklist.None? ==> enabled
    ensures blacklist.Some? ==> (enabled <==> name !in blacklist.value)
  {
    match blacklist
    case None => true
    case Some(list) => Find(list, name).None?
  }

  /** Adding a name to the blacklist disables exactly that name. */
  lemma BlacklistingDisablesOnlyThatName(list: seq<string>, added: string, name: string)
    ensures IsEnableResolve(Some(list + [added]), name) <==> IsEnableResolve(Some(list), name) && name != added
  {
    assert name in list + [added] <==> name in list || name == added;
  }

  /** The value stored under the overseas key. */
  datatype OverseasRecord = OverseasRecord(os: bool)

  /** The answer of `isOverseasServer` on a given store. */
  function OverseasAnswer(force: bool, store: map<string, OverseasRecord>): bool {
    if force then true
    else if Constants.REDIS_YUNZAI_ISOVERSEA !in store then false
    else store[Constants.REDIS_YUNZAI_ISOVERSEA].os
  }

  /** The store after `isOverseasServer`: the first unforced call records `{ os: false }`. */
  function OverseasStore(force: bool, store: map<string, OverseasRecord>): map<string, OverseasRecord> {
    if !force && Constants.REDIS_YUNZAI_ISOVERSEA !in store
    then store[Constants.REDIS_YUNZAI_ISOVERSEA := OverseasRecord(false)]
    else store
  }

  /** The redis keys the plugin reads and writes, each holding a parsed JSON object. */
  class Redis {
    var store: map<string, OverseasRecord>

    constructor(initial: map<string, OverseasRecord>)
      ensures store == initial
    {
      store := initial;
    }

    /** `isOverseasServer()`: forced true; otherwise the stored flag, which
        is first set to `false` when the key does not exist. */
    method IsOverseasServer(force: bool) returns (os: bool)
      modifies this
      ensures os == OverseasAnswer(force, old(store))
      ensures store == OverseasStore(force, old(store))
    {
      if force {
        return true;
      }
      var present := Constants.REDIS_YUNZAI_ISOVERSEA in store;
      if !present {
        store := store[Constants.REDIS_YUNZAI_ISOVERSEA := OverseasRecord(false)];
        return false;
      }
      os := store[Constants.REDIS_YUNZAI_ISOVERSEA].os;
    }
  }

  /** A forced server is overseas, and the store is left alone. */
  lemma ForcedIsOverseas(store: map<string, OverseasRecord>)
    ensures OverseasAnswer(true, store) && OverseasStore(true, store) == store
  {
  }

  /** The first unforced call answers `false` and records exactly that. */
  lemma FirstUseRecordsDomestic(store: map<string, OverseasRecord>)
    requires Constants.REDIS_YUNZAI_ISOVERSEA !in store
    ensures !OverseasAnswer(false, store)
    ensures OverseasStore(false, store)[Constants.REDIS_YUNZAI_ISOVERSEA] == OverseasRecord(false)
    ensures forall k :: k in store ==> k in OverseasStore(false, store) && OverseasStore(false, store)[k] == store[k]
  {
  }

  /** After one call, every later call gives the same answer and changes nothing. */
  lemma OverseasSettles(force: bool, store: map<string, OverseasRecord>)
    ensures var after := OverseasStore(force, store);
      OverseasAnswer(force, after) == OverseasAnswer(force, store) && OverseasStore(force, after) == after
  {
  }
}
