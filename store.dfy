/**
 * The name-to-generator store of `store.py`: a dictionary from account name
 * to `Oath` generator, filled one entry at a time from parsed INI sections.
 *
 * INI parsing is not modelled: `Load` takes the sections as `ConfigParser`
 * returns them, each with the outcome of looking up its `key` option. The
 * clock is a parameter `now`, as in module `Oath`.
 */
module Store {
  import opened Wrappers
  import Oath

  /** What `config.get(section, "key")` finds: no `key` option, a `key`
      written without a value, or a key string. */
  datatype KeyOption = Missing | NoValue | Value(key: string)

  /** One parsed INI section: its name and its `key` option. */
  datatype Section = Section(name: string, key: KeyOption)

  /** Why `load` stops at a section. Every case is tagged with that section;
      of the exceptions behind them, only `NoOptionError` itself names it. */
  datatype LoadError =
    | NoOptionError(section: string)                    // `config.get` raises
    | NoKeyValue(section: string)                       // `OATH(None)` raises AttributeError
    | InvalidEntry(section: string, cause: Oath.OathError) // `OATH(key)` raises

  /** `self[entry]` raises KeyError for a name that is not in the store. */
  datatype StoreError = KeyError(entry: string)

  /** The key the entry for section `s` is built from, or why `load` stops
      at `s`. */
  function SectionKey(s: Section): (r: Result<string, LoadError>)
    ensures r.Success? <==> s.key.Value? && Oath.KeyBytes(s.key.key, Oath.DefaultBlockSize).Success?
    ensures r.Success? ==> r.value == s.key.key
    ensures r.Failure? ==> r.error.section == s.name
  {
    match s.key
    case Missing => Failure(NoOptionError(s.name))
    case NoValue => Failure(NoKeyValue(s.name))
    case Value(k) =>
      match Oath.KeyBytes(k, Oath.DefaultBlockSize)
      case Failure(e) => Failure(InvalidEntry(s.name, e))
      case Success(_) => Success(k)
  }

  /** The store's keys after a load, and how the load ended. */
  datatype Loaded = Loaded(keys: map<string, string>, outcome: Outcome<LoadError>)

  /** Loading `sections` in order into a store whose keys are `keys`: each
      section assigns its key to its name, and the first section that
      cannot be assigned ends the load, leaving what was assigned before. */
  function LoadKeys(keys: map<string, string>, sections: seq<Section>): Loaded
    decreases |sections|
  {
    if sections == [] then Loaded(keys, Pass)
    else
      match SectionKey(sections[0])
      case Failure(e) => Loaded(keys, Fail(e))
      case Success(k) => LoadKeys(keys[sections[0].name := k], sections[1..])
  }

  /** No section of `sections` is named `name`. */
  predicate NotNamed(name: string, sections: seq<Section>)
  {
    forall i :: 0 <= i < |sections| ==> sections[i].name != name
  }

  /** The names of `sections`. */
  function Names(sections: seq<Section>): set<string>
  {
    set i | 0 <= i < |sections| :: sections[i].name
  }

  /** The names of sections are the first name and the names of the rest. */
  lemma NamesOfTail(sections: seq<Section>)
    requires sections != []
    ensures Names(sections) == {sections[0].name} + Names(sections[1..])
  {
    var rest := sections[1..];
    forall n | n in Names(sections)
      ensures n in {sections[0].name} + Names(rest)
    {
      var i :| 0 <= i < |sections| && sections[i].name == n;
      if i > 0 {
        assert rest[i - 1].name == n;
      }
    }
    forall n | n in Names(rest)
      ensures n in Names(sections)
    {
      var i :| 0 <= i < |rest| && rest[i].name == n;
      assert sections[i + 1].name == n;
    }
  }

  /** A load keeps every name it starts with, adds only names of sections,
      and a failed load names one of the sections. */
  lemma {:induction false} LoadKeysDomain(keys: map<string, string>, sections: seq<Section>)
    ensures keys.Keys <= LoadKeys(keys, sections).keys.Keys <= keys.Keys + Names(sections)
    ensures LoadKeys(keys, sections).outcome.Fail? ==> LoadKeys(keys, sections).outcome.error.section in Names(sections)
    decreases |sections|
  {
    if sections != [] {
      NamesOfTail(sections);
      if SectionKey(sections[0]).Success? {
        LoadKeysDomain(keys[sections[0].name := SectionKey(sections[0]).value], sections[1..]);
      }
    }
  }

  /** A successful load had a valid key in every section. */
  lemma {:induction false} LoadPassedAll(keys: map<string, string>, sections: seq<Section>, i: nat)
    requires LoadKeys(keys, sections).outcome.Pass?
    requires i < |sections|
    ensures SectionKey(sections[i]).Success?
    decreases i
  {
    if i > 0 {
      var k := SectionKey(sections[0]).value;
      assert sections[1..][i - 1] == sections[i];
      LoadPassedAll(keys[sections[0].name := k], sections[1..], i - 1);
    }
  }

  /** A load in which every section has a valid key succeeds. */
  lemma {:induction false} LoadPassesAll(keys: map<string, string>, sections: seq<Section>)
    requires forall i :: 0 <= i < |sections| ==> SectionKey(sections[i]).Success?
    ensures LoadKeys(keys, sections).outcome.Pass?
    decreases |sections|
  {
    if sections != [] {
      var k := SectionKey(sections[0]).value;
      var rest := sections[1..];
      assert forall i :: 0 <= i < |rest| ==> rest[i] == sections[i + 1];
      LoadPassesAll(keys[sections[0].name := k], rest);
    }
  }

  /** Loading never removes or changes a name that no section mentions. */
  lemma {:induction false} LoadAdditive(keys: map<string, string>, sections: seq<Section>, name: string)
    requires NotNamed(name, sections)
    ensures name in LoadKeys(keys, sections).keys <==> name in keys
    ensures name in keys ==> LoadKeys(keys, sections).keys[name] == keys[name]
    decreases |sections|
  {
    if sections != [] && SectionKey(sections[0]).Success? {
      var k := SectionKey(sections[0]).value;
      var rest := sections[1..];
      assert forall i :: 0 <= i < |rest| ==> rest[i] == sections[i + 1];
      assert sections[0].name != name;
      LoadAdditive(keys[sections[0].name := k], rest, name);
    }
  }

  /** After a successful load each section's name holds the key of the last
      section with that name. */
  lemma {:induction false} LoadLastWins(keys: map<string, string>, sections: seq<Section>, i: nat)
    requires LoadKeys(keys, sections).outcome.Pass?
    requires i < |sections| && NotNamed(sections[i].name, sections[i + 1..])
    ensures sections[i].key.Value?
    ensures sections[i].name in LoadKeys(keys, sections).keys
    ensures LoadKeys(keys, sections).keys[sections[i].name] == sections[i].key.key
    decreases i
  {
    var k := SectionKey(sections[0]).value;
    var keys' := keys[sections[0].name := k];
    var rest := sections[1..];
    if i == 0 {
      assert rest == sections[i + 1..];
      LoadAdditive(keys', rest, sections[0].name);
    } else {
      assert rest[i - 1] == sections[i] && rest[i..] == sections[i + 1..];
      LoadLastWins(keys', rest, i - 1);
    }
  }

  /** A load whose first `j` sections succeed and whose section `j` fails
      ends with the keys of those `j` sections and the error of section `j`. */
  lemma {:induction false} LoadStopsAt(keys: map<string, string>, sections: seq<Section>, j: nat)
    requires j < |sections|
    requires LoadKeys(keys, sections[..j]).outcome.Pass? && SectionKey(sections[j]).Failure?
    ensures LoadKeys(keys, sections)
         == Loaded(LoadKeys(keys, sections[..j]).keys, Fail(SectionKey(sections[j]).error))
    decreases j
  {
    if j > 0 {
      var prefix := sections[..j];
      assert prefix[0] == sections[0];
      var k := SectionKey(sections[0]).value;
      assert prefix[1..] == sections[1..][..j - 1];
      assert sections[1..][j - 1] == sections[j];
      LoadStopsAt(keys[sections[0].name := k], sections[1..], j - 1);
    }
  }

  /** class `OATHStore`. */
  class OathStore {
    var entries: map<string, Oath.Oath>

    /** Every entry is a constructed generator made by assignment: no
        explicit counter and the default block size. */
    ghost predicate Valid()
      reads this, entries.Values
    {
      forall oath | oath in entries.Values ::
        && oath.Valid()
        && oath.hotpValue == None
        && oath.size == Oath.DefaultBlockSize
    }

    /** The key string each name's generator was built from. */
    ghost function Keys(): map<string, string>
      reads this, entries.Values
    {
      map name | name in entries :: entries[name].key
    }

    /** `OATHStore()`: an empty store. */
    constructor ()
      ensures entries == map[] && Valid()
    {
      entries := map[];
    }

    /** `self[name] = value`: a fresh generator for `value` under `name`,
        replacing any previous one; construction errors propagate and leave
        the store as it was. */
    method SetItem(name: string, value: string, now: Oath.TimeStep) returns (r: Outcome<Oath.OathError>)
      requires Valid()
      modifies this
      ensures Valid()
      ensures r.Pass? <==> Oath.KeyBytes(value, Oath.DefaultBlockSize).Success?
      ensures r.Fail? ==> r.error == Oath.KeyBytes(value, Oath.DefaultBlockSize).error && entries == old(entries)
      ensures r.Pass? ==> name in entries && fresh(entries[name])
                          && entries == old(entries)[name := entries[name]]
                          && entries[name].hotpValueB == Some(Oath.PackInt64(now).value)
      ensures Keys() == if r.Pass? then old(Keys())[name := value] else old(Keys())
    {
      var created := Oath.Oath.Create(value, None, Oath.DefaultBlockSize, now);
      if created.Failure? {
        return Fail(created.error);
      }
      var oath := created.value;
      entries := entries[name := oath];
      forall n | n in entries && n != name
        ensures entries[n] == old(entries)[n] && entries[n].key == old(entries[n].key)
      {
      }
      assert Keys() == old(Keys())[name := value] by {
        assert Keys().Keys == old(Keys())[name := value].Keys;
      }
      return Pass;
    }

    /** `load` over the parsed sections: assigns each section's key to its
        name in order and stops at the first section that cannot be
        assigned. Names no section mentions keep their generator. */
    method Load(sections: seq<Section>, now: Oath.TimeStep) returns (r: Outcome<LoadError>)
      requires Valid()
      modifies this
      ensures Valid()
      ensures LoadKeys(old(Keys()), sections) == Loaded(Keys(), r)
      ensures forall name :: name in old(entries) && NotNamed(name, sections)
                ==> name in entries && entries[name] == old(entries)[name]
      ensures forall name :: name in entries
                ==> (name in old(entries) && entries[name] == old(entries)[name]) || fresh(entries[name])
      ensures r.Pass? ==> forall i :: 0 <= i < |sections| ==>
                && sections[i].name in entries
                && fresh(entries[sections[i].name])
                && entries[sections[i].name].hotpValueB == Some(Oath.PackInt64(now).value)
    {
      var i := 0;
      ghost var touched: set<string> := {};
      while i < |sections|
        invariant 0 <= i <= |sections|
        invariant Valid()
        invariant LoadKeys(old(Keys()), sections) == LoadKeys(Keys(), sections[i..])
        invariant touched <= Names(sections)
        invariant forall name :: name in old(entries) && name !in touched
                    ==> name in entries && entries[name] == old(entries)[name]
        invariant forall name :: name in entries
                    ==> (name in old(entries) && entries[name] == old(entries)[name]) || fresh(entries[name])
        invariant forall k :: 0 <= k < i ==> sections[k].name in touched
        invariant forall name :: name in touched ==>
                    && name in entries
                    && fresh(entries[name])
                    && entries[name].hotpValueB == Some(Oath.PackInt64(now).value)
      {
        var section := sections[i];
        assert sections[i..][0] == section && sections[i..][1..] == sections[i + 1..];
        match section.key {
          case Missing =>
            return Fail(NoOptionError(section.name));
          case NoValue =>
            return Fail(NoKeyValue(section.name));
          case Value(key) =>
            var stored := SetItem(section.name, key, now);
            if stored.Fail? {
              return Fail(InvalidEntry(section.name, stored.error));
            }
        }
        touched := touched + {section.name};
        i := i + 1;
      }
      return Pass;
    }

    /** `gen_code(entry)`: the code of the named generator, or KeyError.
        No entry is added, removed or replaced. */
    method GenCode(entry: string, mac: Oath.Mac, now: Oath.TimeStep) returns (r: Result<string, StoreError>)
      requires Valid()
      modifies if entry in entries then {entries[entry]} else {}
      ensures Valid()
      ensures entries == old(entries) && Keys() == old(Keys())
      ensures entry in entries ==> entries[entry].hotpValueB == Some(Oath.PackInt64(now).value)
      ensures entry !in entries ==> r == Failure(KeyError(entry))
      ensures entry in entries ==>
                && r.Success?
                && Oath.Code(mac, Keys()[entry], None, Oath.DefaultBlockSize, now) == Success(r.value)
                && |r.value| == Oath.CodeWidth
    {
      if entry !in entries {
        return Failure(KeyError(entry));
      }
      var oath := entries[entry];
      // The source's `if not oath: return` is never taken: a generator is
      // always truthy, as a reference here is never null.
      assert oath in entries.Values;
      var code := oath.GenCode(mac, now);
      assert Keys() == old(Keys());
      return Success(code);
    }
  }
}
